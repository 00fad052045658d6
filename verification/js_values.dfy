/** The JavaScript values a parser handles between its lookups and the block
    table it builds, and the truthiness rules behind its logical-or chains and
    its truthiness filters. */
module JsValues {
  import opened Wrappers
  import opened Dom

  datatype Value =
    | Null
    | Str(s: string)
    | Elem(node: Node)
    | NodeList(nodes: seq<Node>)

  /** A block table: rows of cells. */
  type Cells = seq<seq<Value>>

  /** JavaScript truthiness: `null` and `''` are falsy; every element and
      every NodeList, even an empty one, is truthy. */
  predicate Truthy(v: Value) {
    match v
    case Null => false
    case Str(s) => s != []
    case Elem(_) => true
    case NodeList(_) => true
  }

  /** Logical or: the first operand when it is truthy, else the second. */
  function Or(a: Value, b: Value): Value {
    if Truthy(a) then a else b
  }

  /** Logical or over the operands `vs`, grouped to the left as JavaScript
      does: the first truthy operand, or the last operand when none is. */
  function OrChain(vs: seq<Value>): (r: Value)
    requires |vs| > 0
    ensures Truthy(r) <==> exists i :: 0 <= i < |vs| && Truthy(vs[i])
    ensures Truthy(r) ==> exists i :: 0 <= i < |vs| && vs[i] == r && forall j :: 0 <= j < i ==> !Truthy(vs[j])
    ensures !Truthy(r) ==> r == vs[|vs| - 1]
  {
    if |vs| == 1 then vs[0]
    else
      var init := vs[..|vs| - 1];
      assert forall i :: 0 <= i < |init| ==> init[i] == vs[i];
      Or(OrChain(init), vs[|vs| - 1])
  }

  /** The value of one `querySelector` call. */
  function Lookup(o: Option<Node>): Value {
    if o.Some? then Elem(o.value) else Null
  }

  function Lookups(os: seq<Option<Node>>): (vs: seq<Value>)
    ensures |vs| == |os|
    ensures forall i :: 0 <= i < |os| ==> vs[i] == Lookup(os[i])
  {
    if |os| == 0 then [] else [Lookup(os[0])] + Lookups(os[1..])
  }

  /** A chain of logical-or over single-element lookups: `null`, or the first
      node found. */
  function FirstOf(os: seq<Option<Node>>): (v: Value)
    requires |os| > 0
    ensures v == Lookup(FirstFound(os))
  {
    FirstOfIsFirstFound(os);
    OrChain(Lookups(os))
  }

  lemma FirstOfIsFirstFound(os: seq<Option<Node>>)
    requires |os| > 0
    ensures OrChain(Lookups(os)) == Lookup(FirstFound(os))
  {
    var vs := Lookups(os);
    var f := FirstFound(os);
    if f.Some? {
      var i :| 0 <= i < |os| && os[i] == f && forall j :: 0 <= j < i ==> os[j].None?;
      forall j | 0 <= j < i
        ensures !Truthy(vs[j])
      {
        assert vs[j] == Lookup(os[j]);
      }
      OrChainPicksFirstTruthy(vs, i);
    } else {
      forall j | 0 <= j < |vs|
        ensures !Truthy(vs[j])
      {
        assert vs[j] == Lookup(os[j]);
      }
    }
  }

  /** A chain of logical-or is its first truthy operand. */
  lemma OrChainPicksFirstTruthy(vs: seq<Value>, i: nat)
    requires i < |vs| && Truthy(vs[i])
    requires forall j :: 0 <= j < i ==> !Truthy(vs[j])
    ensures OrChain(vs) == vs[i]
  {
    var r := OrChain(vs);
    var k :| 0 <= k < |vs| && vs[k] == r && forall j :: 0 <= j < k ==> !Truthy(vs[j]);
    FirstTruthyUnique(vs, i, k);
  }

  lemma FirstTruthyUnique(vs: seq<Value>, i: nat, k: nat)
    requires i < |vs| && k < |vs| && Truthy(vs[i]) && Truthy(vs[k])
    requires forall j :: 0 <= j < i ==> !Truthy(vs[j])
    requires forall j :: 0 <= j < k ==> !Truthy(vs[j])
    ensures i == k
  {
  }

  function NodeLists(lists: seq<seq<Node>>): (vs: seq<Value>)
    ensures |vs| == |lists|
    ensures forall i :: 0 <= i < |lists| ==> vs[i] == NodeList(lists[i])
  {
    if |lists| == 0 then [] else [NodeList(lists[0])] + NodeLists(lists[1..])
  }

  /** A chain of logical-or over element-list lookups, made into an array.
      A NodeList is truthy even when it is empty, so the chain stops at the
      first list whatever it holds. */
  function QueryAllChain(lists: seq<seq<Node>>): (r: seq<Node>)
    requires |lists| > 0
    ensures r == lists[0]
  {
    var v := OrChain(NodeLists(lists));
    assert Truthy(NodeLists(lists)[0]);
    match v
    case NodeList(nodes) => nodes
    case _ => assert false; []
  }

  /** The first list of a chain that holds any node: what a fallback chain of
      `querySelectorAll` calls is evidently meant to pick. */
  function FirstNonEmpty(lists: seq<seq<Node>>): (r: seq<Node>)
    ensures r == [] <==> forall i :: 0 <= i < |lists| ==> lists[i] == []
    ensures r != [] ==> exists i :: 0 <= i < |lists| && lists[i] == r && forall j :: 0 <= j < i ==> lists[j] == []
  {
    if |lists| == 0 then []
    else if lists[0] != [] then lists[0]
    else
      var rest := FirstNonEmpty(lists[1..]);
      assert forall i :: 1 <= i < |lists| ==> lists[i] == lists[1..][i - 1];
      rest
  }

  /** The intended fallback over two lists. */
  lemma FirstNonEmptyOfTwo(a: seq<Node>, b: seq<Node>)
    ensures FirstNonEmpty([a, b]) == if a != [] then a else b
  {
    assert [a, b][1..] == [b];
    assert [b][1..] == [];
  }

  /** The chain as written and the intended fallback agree exactly when the
      first list is non-empty or every list is empty; otherwise the later
      lists are ignored. */
  lemma FallbackIgnored(lists: seq<seq<Node>>)
    requires |lists| > 0
    ensures QueryAllChain(lists) == FirstNonEmpty(lists) <==> lists[0] != [] || forall i :: 0 <= i < |lists| ==> lists[i] == []
  {
    if lists[0] == [] && FirstNonEmpty(lists) != [] {
      var i :| 0 <= i < |lists| && lists[i] == FirstNonEmpty(lists) && forall j :: 0 <= j < i ==> lists[j] == [];
    }
  }

  /** Filtering a cell list by truthiness: the truthy values, in order. */
  function FilterTruthy(vs: seq<Value>): (r: seq<Value>)
    ensures |r| <= |vs|
    ensures forall i :: 0 <= i < |r| ==> Truthy(r[i])
    ensures (forall i :: 0 <= i < |vs| ==> Truthy(vs[i])) <==> r == vs
  {
    if |vs| == 0 then []
    else
      var rest := FilterTruthy(vs[1..]);
      assert forall i :: 1 <= i < |vs| ==> vs[i] == vs[1..][i - 1];
      if Truthy(vs[0]) then [vs[0]] + rest else rest
  }

  /** Filtering works element by element. */
  lemma {:induction false} FilterTruthyConcat(a: seq<Value>, b: seq<Value>)
    ensures FilterTruthy(a + b) == FilterTruthy(a) + FilterTruthy(b)
  {
    if |a| == 0 {
      assert a + b == b;
    } else {
      assert (a + b)[0] == a[0];
      assert (a + b)[1..] == a[1..] + b;
      FilterTruthyConcat(a[1..], b);
    }
  }

  /** A cell that is kept by the truthiness filter: present as one value or
      absent. */
  function Kept(v: Value): (r: seq<Value>)
    ensures r == FilterTruthy([v])
  {
    assert [v][1..] == [];
    if Truthy(v) then [v] else []
  }

  /** The node a lookup found, or none for `null`. */
  function Found(o: Option<Node>): seq<Node> {
    if o.Some? then [o.value] else []
  }

  /** The truthiness filter keeps exactly the node a lookup found: the
      value-level and the node-level readings of a lookup agree. */
  lemma KeptLookup(o: Option<Node>)
    ensures |Kept(Lookup(o))| == |Found(o)|
    ensures forall i :: 0 <= i < |Found(o)| ==> Kept(Lookup(o))[i] == Elem(Found(o)[i])
  { }
}
