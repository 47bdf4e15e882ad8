/** The state of the `App` component and its event handlers: the chart list,
    the employee pool, the selection and the search term are fields that the
    handlers replace, as the component's state setters do. */
module Editor {
  import opened Util
  import opened Pool
  import opened Nodes
  import opened Closure
  import opened Chart
  import opened Edits

  class App {
    var nodes: seq<Node>
    var pool: seq<Employee>
    var selected: set<string>
    var searchTerm: string
    var levels: seq<Level>

    /** The chart stays well formed between events. */
    ghost predicate Valid()
      reads this
    {
      WellFormed(nodes)
    }

    constructor ()
      ensures Valid()
      ensures nodes == InitialNodes && pool == [] && selected == {} && searchTerm == ""
      ensures levels == DefaultLevels
    {
      nodes := InitialNodes;
      pool := [];
      selected := {};
      searchTerm := "";
      levels := DefaultLevels;
      InitialWellFormed();
    }

    /** The parse step of `fetchData`: the pool is replaced by the employees
        read from the sheet's text. */
    method LoadPool(text: string)
      requires Valid()
      modifies this
      ensures Valid()
      ensures pool == ParseCsv(text)
      ensures nodes == old(nodes) && selected == old(selected)
      ensures searchTerm == old(searchTerm) && levels == old(levels)
    {
      pool := ParseCsv(text);
    }

    method SetSearchTerm(term: string)
      requires Valid()
      modifies this
      ensures Valid()
      ensures searchTerm == term
      ensures nodes == old(nodes) && pool == old(pool) && selected == old(selected)
      ensures levels == old(levels)
    {
      searchTerm := term;
    }

    /** `selectAllFiltered`: the selection becomes the shown employees. */
    method SelectAllFiltered()
      requires Valid()
      modifies this
      ensures Valid()
      ensures selected == VisibleIds(pool, searchTerm)
      ensures nodes == old(nodes) && pool == old(pool) && searchTerm == old(searchTerm)
      ensures levels == old(levels)
    {
      selected := VisibleIds(pool, searchTerm);
    }

    method DeselectAll()
      requires Valid()
      modifies this
      ensures Valid()
      ensures selected == {}
      ensures nodes == old(nodes) && pool == old(pool) && searchTerm == old(searchTerm)
      ensures levels == old(levels)
    {
      selected := {};
    }

    /** `toggleSelect`: copy the set, delete the id if present, add it
        otherwise. */
    method ToggleSelect(id: string)
      requires Valid()
      modifies this
      ensures Valid()
      ensures selected == Toggled(old(selected), id)
      ensures nodes == old(nodes) && pool == old(pool) && searchTerm == old(searchTerm)
      ensures levels == old(levels)
    {
      var next := selected;
      if id in next {
        next := next - {id};
      } else {
        next := next + {id};
      }
      selected := next;
    }

    /** `addNode`, called from the add menu of an org card with an id the
        clock and random source would produce. */
    method AddNode(parentId: string, isException: bool, layout: Layout, levelIdx: Option<nat>, newId: string)
      requires levelIdx.Some? ==> levelIdx.value < |levels|
      requires Valid() && FreshId(nodes, newId) && IsOrgId(nodes, parentId)
      modifies this
      ensures levels == old(levels)
      ensures Valid()
      ensures nodes == Edits.AddNode(old(nodes), parentId, isException, layout, levelIdx, levels, newId)
      ensures pool == old(pool) && selected == old(selected) && searchTerm == old(searchTerm)
    {
      var next := Edits.AddNode(nodes, parentId, isException, layout, levelIdx, levels, newId);
      AddNodeWellFormed(nodes, parentId, isException, layout, levelIdx, levels, newId);
      nodes := next;
    }

    /** `addSelectedToOrg`: the selected employees are placed below the org
        card and the selection is cleared. */
    method AddSelectedToOrg(parentId: string, ids: seq<string>)
      requires Valid() && IsOrgId(nodes, parentId)
      requires |ids| == |SelectedEmployees(pool, selected)| && FreshIds(nodes, ids)
      modifies this
      ensures Valid()
      ensures nodes == AddSelected(old(nodes), old(pool), old(selected), parentId, ids)
      ensures selected == {}
      ensures pool == old(pool) && searchTerm == old(searchTerm) && levels == old(levels)
    {
      AddSelectedWellFormed(nodes, pool, selected, parentId, ids);
      nodes := AddSelected(nodes, pool, selected, parentId, ids);
      selected := {};
    }

    /** `deleteNode`: refuse a `root-` id, collect the card and everything
        below it, refuse when that reaches a `root-` card, and keep the rest
        in order. */
    method DeleteNode(id: string)
      requires Valid()
      modifies this
      ensures Valid()
      ensures nodes == Edits.DeleteNode(old(nodes), id)
      ensures pool == old(pool) && selected == old(selected) && searchTerm == old(searchTerm)
      ensures levels == old(levels)
    {
      DeleteNodeWellFormed(nodes, id);
      if IsRootId(id) {
        return;
      }
      var doomed := CollectDoomed(nodes, id);
      if exists x :: x in doomed && IsRootId(x) {
        return;
      }
      nodes := Without(nodes, doomed);
    }

    /** `updateLabel`. */
    method UpdateLabel(id: string, caption: string)
      requires Valid()
      modifies this
      ensures Valid()
      ensures nodes == Edits.UpdateLabel(old(nodes), id, caption)
      ensures pool == old(pool) && selected == old(selected) && searchTerm == old(searchTerm)
      ensures levels == old(levels)
    {
      UpdateLabelWellFormed(nodes, id, caption);
      nodes := Edits.UpdateLabel(nodes, id, caption);
    }

    /** `handleDrop` with the drag payload given as a value. */
    method HandleDrop(payload: Payload, target: string, newId: string)
      requires Valid() && DropAllowed(nodes, payload, newId)
      modifies this
      ensures Valid()
      ensures nodes == Drop(old(nodes), payload, target, newId)
      ensures pool == old(pool) && selected == old(selected) && searchTerm == old(searchTerm)
      ensures levels == old(levels)
    {
      DropWellFormed(nodes, payload, target, newId);
      nodes := Drop(nodes, payload, target, newId);
    }

    /** The reset button: the chart goes back to its two initial cards. */
    method Reset()
      modifies this
      ensures Valid() && nodes == InitialNodes
      ensures pool == old(pool) && selected == old(selected) && searchTerm == old(searchTerm)
      ensures levels == old(levels)
    {
      InitialWellFormed();
      nodes := InitialNodes;
    }
  }
}
