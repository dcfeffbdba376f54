/**
 * The flat node list of the tree editor and the one question every operation
 * asks of it: where does record `i` hang in the nested view?
 *
 * A record's parent is found by id through a dictionary that maps each id to
 * the position of the LAST record carrying it (src/Demo.js:111-113), and the
 * parent key is tested for JavaScript truthiness (src/Demo.js:116), so both
 * a null and an empty-string parent key mean "this record is a root".
 */
module Records {

  datatype Option<T> = None | Some(value: T)

  /**
   * One record of the flat list. `disabled` stands for the record's other
   * fields: every operation carries them through unchanged.
   */
  datatype Node = Node(id: string, parentId: Option<string>, disabled: bool)

  /** JavaScript truthiness of a parent key: null and "" are both falsy. */
  predicate Truthy(parentId: Option<string>)
  {
    parentId.Some? && parentId.value != ""
  }

  /**
   * The position the id dictionary holds for `id` once every record has been
   * entered in list order: a later record with the same id overwrites an
   * earlier one, so the last occurrence wins; `None` when no record has it.
   */
  function LastIndex(nodes: seq<Node>, id: string): (r: Option<nat>)
    ensures r.Some? ==> r.value < |nodes| && nodes[r.value].id == id
    decreases |nodes|
  {
    if |nodes| == 0 then None
    else if nodes[|nodes| - 1].id == id then Some(|nodes| - 1)
    else LastIndex(nodes[..|nodes| - 1], id)
  }

  /** No record after the one found carries the id; when none is found, no record carries it. */
  lemma {:induction false} LastIndexSpec(nodes: seq<Node>, id: string)
    ensures LastIndex(nodes, id).Some? ==> forall j :: LastIndex(nodes, id).value < j < |nodes| ==> nodes[j].id != id
    ensures LastIndex(nodes, id).None? ==> forall j :: 0 <= j < |nodes| ==> nodes[j].id != id
    decreases |nodes|
  {
    if |nodes| > 0 && nodes[|nodes| - 1].id != id {
      LastIndexSpec(nodes[..|nodes| - 1], id);
    }
  }

  /** Where a record is attached in the nested view. */
  datatype Place = Root | Under(parent: nat)

  /**
   * The place of record `i`: under the record its truthy parent key resolves
   * to, otherwise (null, "" or a dangling key) among the roots.
   */
  function PlaceOf(nodes: seq<Node>, i: nat): (pl: Place)
    requires i < |nodes|
    ensures pl.Under? ==> Truthy(nodes[i].parentId) && LastIndex(nodes, nodes[i].parentId.value) == Some(pl.parent)
    ensures pl.Under? ==> pl.parent < |nodes| && nodes[pl.parent].id == nodes[i].parentId.value
    ensures pl.Root? && Truthy(nodes[i].parentId) ==> LastIndex(nodes, nodes[i].parentId.value).None?
  {
    if Truthy(nodes[i].parentId) then
      match LastIndex(nodes, nodes[i].parentId.value)
      case Some(p) => Under(p)
      case None => Root
    else Root
  }

  /** A record is a root exactly when its parent key is falsy or names no record. */
  lemma RootIffUnresolved(nodes: seq<Node>, i: nat)
    requires i < |nodes|
    ensures PlaceOf(nodes, i).Root? <==> !Truthy(nodes[i].parentId) || forall j :: 0 <= j < |nodes| ==> nodes[j].id != nodes[i].parentId.value
  {
    if Truthy(nodes[i].parentId) {
      LastIndexSpec(nodes, nodes[i].parentId.value);
    }
  }

  /** Two lists with the same ids at every position. */
  predicate SameIds(a: seq<Node>, b: seq<Node>)
  {
    |a| == |b| && forall k :: 0 <= k < |a| ==> a[k].id == b[k].id
  }

  /** Lookups by id only see the ids, so lists with the same ids resolve every id alike. */
  lemma {:induction false} SameIdsSameIndex(a: seq<Node>, b: seq<Node>, id: string)
    requires SameIds(a, b)
    ensures LastIndex(a, id) == LastIndex(b, id)
    decreases |a|
  {
    if |a| > 0 && a[|a| - 1].id != id {
      SameIdsSameIndex(a[..|a| - 1], b[..|b| - 1], id);
    }
  }

  /** A record keeps its place when the ids around it and its own parent key are unchanged. */
  lemma SameIdsSamePlace(a: seq<Node>, b: seq<Node>, i: nat)
    requires SameIds(a, b) && i < |a|
    requires a[i].parentId == b[i].parentId
    ensures PlaceOf(a, i) == PlaceOf(b, i)
  {
    if Truthy(a[i].parentId) {
      SameIdsSameIndex(a, b, a[i].parentId.value);
    }
  }
}
