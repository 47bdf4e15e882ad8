/** The leader-role badge: `LEADER_TYPES` is a fixed table whose keys are
    tried in declaration order, and a position gets the first key whose
    label occurs in it as a substring (`Object.keys(...).find(...)`). */
module Roles {
  import opened Util
  import opened Text

  datatype Role = President | Ceo | Division | Group | Team

  /** The keys of `LEADER_TYPES` in declaration order. */
  const LeaderOrder: seq<Role> := [President, Ceo, Division, Group, Team]

  /** Position of a key in `LeaderOrder`. */
  function Rank(r: Role): (k: nat)
    ensures k < |LeaderOrder| && LeaderOrder[k] == r
  {
    match r
    case President => 0
    case Ceo => 1
    case Division => 2
    case Group => 3
    case Team => 4
  }

  /** The `label` of each entry of `LEADER_TYPES`. */
  function Label(r: Role): string
  {
    match r
    case President => "사장"
    case Ceo => "대표이사"
    case Division => "부문리더"
    case Group => "그룹리더"
    case Team => "팀리더"
  }

  /** `keys.find(key => position.includes(Label(key)))`. */
  function FirstMatch(position: string, keys: seq<Role>): (r: Option<Role>)
    ensures r.None? <==> forall i :: 0 <= i < |keys| ==> !Contains(position, Label(keys[i]))
    ensures r.Some? ==>
      exists i :: 0 <= i < |keys| && keys[i] == r.value && Contains(position, Label(keys[i]))
        && (forall j :: 0 <= j < i ==> !Contains(position, Label(keys[j])))
  {
    if |keys| == 0 then None
    else if Contains(position, Label(keys[0])) then Some(keys[0])
    else
      var r := FirstMatch(position, keys[1..]);
      assert forall i :: 1 <= i < |keys| ==> keys[i] == keys[1..][i - 1];
      r
  }

  /** The role badge of a person with the given position text, or `None`
      where the source stores `null`. */
  function Classify(position: string): (r: Option<Role>)
    ensures r.Some? ==> Contains(position, Label(r.value))
  {
    FirstMatch(position, LeaderOrder)
  }

  /** A position gets role `r` exactly when the label of `r` occurs in it and
      no label of an earlier key does. */
  lemma ClassifySome(position: string, r: Role)
    ensures Classify(position) == Some(r) <==>
      Contains(position, Label(r)) &&
      forall q :: Rank(q) < Rank(r) ==> !Contains(position, Label(q))
  {
    if Classify(position) == Some(r) {
      ClassifySomeSound(position, r);
    }
    if Contains(position, Label(r)) && forall q :: Rank(q) < Rank(r) ==> !Contains(position, Label(q)) {
      ClassifySomeComplete(position, r);
    }
  }

  lemma ClassifySomeSound(position: string, r: Role)
    requires Classify(position) == Some(r)
    ensures Contains(position, Label(r))
    ensures forall q :: Rank(q) < Rank(r) ==> !Contains(position, Label(q))
  {
    var i :| 0 <= i < |LeaderOrder| && LeaderOrder[i] == r
      && Contains(position, Label(LeaderOrder[i]))
      && forall j :: 0 <= j < i ==> !Contains(position, Label(LeaderOrder[j]));
    assert i == Rank(r);
    forall q | Rank(q) < Rank(r) ensures !Contains(position, Label(q)) {
      assert LeaderOrder[Rank(q)] == q;
    }
  }

  lemma ClassifySomeComplete(position: string, r: Role)
    requires Contains(position, Label(r))
    requires forall q :: Rank(q) < Rank(r) ==> !Contains(position, Label(q))
    ensures Classify(position) == Some(r)
  {
    forall j | 0 <= j < Rank(r) ensures !Contains(position, Label(LeaderOrder[j])) {
      assert Rank(LeaderOrder[j]) == j;
    }
    FirstMatchAt(position, LeaderOrder, Rank(r));
  }

  /** The lookup stops at the first key whose label occurs. */
  lemma {:induction false} FirstMatchAt(position: string, keys: seq<Role>, k: nat)
    requires k < |keys| && Contains(position, Label(keys[k]))
    requires forall j :: 0 <= j < k ==> !Contains(position, Label(keys[j]))
    ensures FirstMatch(position, keys) == Some(keys[k])
    decreases k
  {
    if k > 0 {
      assert keys[1..][k - 1] == keys[k];
      forall j | 0 <= j < k - 1 ensures !Contains(position, Label(keys[1..][j])) {
        assert keys[1..][j] == keys[j + 1];
      }
      FirstMatchAt(position, keys[1..], k - 1);
    }
  }

  /** A position gets no badge exactly when no label occurs in it. */
  lemma ClassifyNone(position: string)
    ensures Classify(position) == None <==> forall q :: !Contains(position, Label(q))
  {
    if Classify(position) == None {
      forall q ensures !Contains(position, Label(q)) {
        assert LeaderOrder[Rank(q)] == q;
      }
    }
  }

  /** The team-leader title gets the TEAM badge. */
  lemma ClassifyTeamLeader()
    ensures Classify("팀리더") == Some(Team)
  {
    var p := "팀리더";
    assert OccursAt(p, Label(Team), 0);
    assert !OccursAt(p, Label(President), 0) by { assert p[0] != Label(President)[0]; }
    assert !OccursAt(p, Label(President), 1) by { assert p[1] != Label(President)[0]; }
    assert !Contains(p, Label(President));
    assert |Label(Ceo)| > |p| && |Label(Division)| > |p| && |Label(Group)| > |p|;
  }

  /** An empty title gets no badge. */
  lemma ClassifyEmpty()
    ensures Classify("") == None
  {
    ClassifyNone("");
  }

  /** A title that merely contains "사장", such as "부사장" (vice president),
      already matches the first key. */
  lemma ClassifyVicePresident()
    ensures Classify("부사장") == Some(President)
  {
    assert OccursAt("부사장", Label(President), 1);
  }
}
