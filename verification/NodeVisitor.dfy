/** The in-place list transform of the AST visitor: lib/node-visitor.ts. */
module NodeVisitor {

  /** A node-list slot, and what a visit returns: null, a node, or a list. */
  datatype Elem = Null | Node(id: nat) | List(elems: seq<Elem>)

  /** The per-type methods of a visitor: one result for each node. */
  type Handler = Elem -> Elem

  /** A JavaScript array of elements. */
  class NodeList {
    var items: seq<Elem>

    constructor (elems: seq<Elem>)
      ensures items == elems
    {
      items := elems;
    }

    /** splice(i, 1, ...es) */
    method Splice(i: nat, es: seq<Elem>)
      requires i < |items|
      modifies this
      ensures items == old(items)[..i] + es + old(items)[i + 1..]
    {
      items := items[..i] + es + items[i + 1..];
    }
  }

  // ---- what a visit amounts to

  /** The result of visiting one element; a per-type method that returns null keeps its node. */
  function Visited(handler: Handler, e: Elem): Elem
    decreases e, 0
  {
    match e
    case Null => Null
    case Node(_) => if handler(e).Null? then e else handler(e)
    case List(elems) => List(Replacements(handler, elems, |elems|))
  }

  /** What a result puts into the list in place of one element. */
  function Spread(r: Elem): seq<Elem> {
    match r
    case Null => []
    case Node(_) => [r]
    case List(elems) => elems
  }

  /** The in-order concatenation of what the first n elements become. */
  function Replacements(handler: Handler, elems: seq<Elem>, n: nat): seq<Elem>
    requires n <= |elems|
    decreases elems, n
  {
    if n == 0 then []
    else Replacements(handler, elems, n - 1) + Spread(Visited(handler, elems[n - 1]))
  }

  /** The nodes of an element, in order. */
  function NodesOf(e: Elem): seq<Elem>
    decreases e, 0
  {
    match e
    case Null => []
    case Node(_) => [e]
    case List(elems) => NodesIn(elems, |elems|)
  }

  function NodesIn(elems: seq<Elem>, n: nat): seq<Elem>
    requires n <= |elems|
    decreases elems, n
  {
    if n == 0 then [] else NodesIn(elems, n - 1) + NodesOf(elems[n - 1])
  }

  // ---- the visitor

  class TreeVisitor {
    const handler: Handler

    /** The nodes handed to the per-type methods so far. */
    var visited: seq<Elem>

    constructor (h: Handler)
      ensures handler == h && visited == []
    {
      handler := h;
      visited := [];
    }

    method Visit(n: Elem) returns (r: Elem)
      modifies this
      ensures r == Visited(handler, n)
      ensures n.Node? ==> r == if handler(n).Null? then n else handler(n)
      ensures visited == old(visited) + NodesOf(n)
      decreases n, 1
    {
      if n.Null? { return n; }
      if n.List? {
        var list := new NodeList(n.elems);
        VisitArray(list);
        return List(list.items);
      }
      visited := visited + [n];
      r := handler(n);
      if r.Null? { return n; }
    }

    /** visitArray: the list becomes its elements' results, each element visited once, in order. */
    method VisitArray(arr: NodeList)
      modifies this, arr
      ensures arr.items == Replacements(handler, old(arr.items), |old(arr.items)|)
      ensures visited == old(visited) + NodesIn(old(arr.items), |old(arr.items)|)
      decreases arr.items, 0
    {
      hide Visited, Replacements, NodesOf, NodesIn;
      NothingYet(handler, arr.items);
      ghost var original := arr.items;
      ghost var k := 0;  // elements of the original list dealt with
      var i := 0;
      var end := |arr.items|;
      while i < end
        invariant 0 <= k <= |original| && 0 <= i <= end == |arr.items|
        invariant arr.items[..i] == Replacements(handler, original, k)
        invariant arr.items[i..] == original[k..]
        invariant visited == old(visited) + NodesIn(original, k)
        decreases |original| - k
      {
        assert arr.items[i] == original[k];
        assert original decreases to original[k];
        var tmp := Visit(arr.items[i]);
        ghost var before, at := arr.items, i;
        OneMore(handler, original, k);
        if tmp.Null? {
          arr.Splice(i, []);
          end := |arr.items|;
        } else if tmp.List? {
          arr.Splice(i, tmp.elems);
          i := i + |tmp.elems|;
          end := |arr.items|;
        } else {
          arr.items := arr.items[i := tmp];
          assert arr.items == before[..i] + [tmp] + before[i + 1..];
          i := i + 1;
        }
        SplicedAt(before, arr.items, at, Spread(tmp));
        k := k + 1;
      }
      assert arr.items == arr.items[..i];
    }

    /** visitArrayKeep: one result per element, nulls kept in place. */
    method VisitArrayKeep(arr: seq<Elem>) returns (results: seq<Elem>)
      modifies this
      ensures |results| == |arr| && forall k :: 0 <= k < |arr| ==> results[k] == Visited(handler, arr[k])
      ensures visited == old(visited) + NodesIn(arr, |arr|)
    {
      hide Visited, NodesOf;
      results := [];
      for k := 0 to |arr|
        invariant |results| == k && forall j :: 0 <= j < k ==> results[j] == Visited(handler, arr[j])
        invariant visited == old(visited) + NodesIn(arr, k)
      {
        KeepsNull(handler);
        if arr[k].Null? {
          results := results + [Null];
        } else {
          var r := Visit(arr[k]);
          results := results + [r];
        }
      }
    }
  }

  lemma KeepsNull(handler: Handler)
    ensures Visited(handler, Null) == Null && NodesOf(Null) == []
  {
  }

  lemma NothingYet(handler: Handler, elems: seq<Elem>)
    ensures Replacements(handler, elems, 0) == [] && NodesIn(elems, 0) == []
  {
  }

  lemma OneMore(handler: Handler, elems: seq<Elem>, k: nat)
    requires k < |elems|
    ensures Replacements(handler, elems, k + 1) == Replacements(handler, elems, k) + Spread(Visited(handler, elems[k]))
    ensures NodesIn(elems, k + 1) == NodesIn(elems, k) + NodesOf(elems[k])
  {
  }

  lemma SplicedAt(before: seq<Elem>, after: seq<Elem>, i: nat, es: seq<Elem>)
    requires i < |before| && after == before[..i] + es + before[i + 1..]
    ensures after[..i + |es|] == before[..i] + es
    ensures after[i + |es|..] == before[i + 1..]
    ensures before[i + 1..] == before[i..][1..]
  {
  }

  // ---- consequences

  /** A visitor whose methods keep their nodes leaves a list without nulls as it was. */
  lemma {:induction false} KeepingVisitor(handler: Handler, elems: seq<Elem>, n: nat)
    requires n <= |elems| && forall k :: 0 <= k < |elems| ==> elems[k].Node? && handler(elems[k]).Null?
    ensures Replacements(handler, elems, n) == elems[..n]
  {
    if n != 0 {
      KeepingVisitor(handler, elems, n - 1);
      assert elems[..n] == elems[..n - 1] + [elems[n - 1]];
    }
  }

  /** The nodes visited in a list of nodes are its elements: none twice, none skipped. */
  lemma {:induction false} EachVisitedOnce(elems: seq<Elem>, n: nat)
    requires n <= |elems| && forall k :: 0 <= k < |elems| ==> elems[k].Node?
    ensures NodesIn(elems, n) == elems[..n]
  {
    if n != 0 {
      EachVisitedOnce(elems, n - 1);
      assert elems[..n] == elems[..n - 1] + [elems[n - 1]];
    }
  }

  /** Only a null element is ever dropped: a node leaves at least itself or what its method returned. */
  lemma OnlyNullOrEmptyDrops(handler: Handler, e: Elem)
    requires e.Node?
    ensures Spread(Visited(handler, e)) == [] <==> handler(e) == List([])
  {
  }

  /** What one element becomes: its method's result, itself if there is none, and an inner list its own results. */
  lemma OneResult(handler: Handler, e: Elem)
    ensures var r := Replacements(handler, [e], 1);
      match e
      case Null => r == []
      case List(elems) => r == Replacements(handler, elems, |elems|)
      case Node(_) =>
        match handler(e)
        case Null => r == [e]
        case Node(_) => r == [handler(e)]
        case List(es) => r == es
  {
    assert Replacements(handler, [e], 0) == [];
    assert Replacements(handler, [e], 1) == Replacements(handler, [e], 0) + Spread(Visited(handler, e));
  }

  /** The results of two lists in a row are their results in a row. */
  lemma {:induction false} ResultsAppend(handler: Handler, a: seq<Elem>, b: seq<Elem>)
    ensures Replacements(handler, a + b, |a + b|) == Replacements(handler, a, |a|) + Replacements(handler, b, |b|)
    decreases |b|
  {
    hide Visited, Spread;
    if b == [] {
      assert a + b == a;
    } else {
      var n := |b| - 1;
      ResultsAppend(handler, a, b[..n]);
      SamePrefix(handler, a + b, a + b[..n], |a| + n);
      SamePrefix(handler, b, b[..n], n);
    }
  }

  lemma {:induction false} SamePrefix(handler: Handler, s: seq<Elem>, t: seq<Elem>, n: nat)
    requires n <= |s| && n <= |t| && s[..n] == t[..n]
    ensures Replacements(handler, s, n) == Replacements(handler, t, n)
    decreases n
  {
    hide Visited, Spread;
    if n != 0 {
      assert s[n - 1] == s[..n][n - 1] == t[..n][n - 1] == t[n - 1];
      assert s[..n - 1] == s[..n][..n - 1] && t[..n - 1] == t[..n][..n - 1];
      SamePrefix(handler, s, t, n - 1);
    }
  }

  /** A visitor that answers a node for every node replaces each in its place. */
  lemma {:induction false} MappingVisitor(handler: Handler, elems: seq<Elem>, n: nat)
    requires n <= |elems| && forall k :: 0 <= k < |elems| ==> elems[k].Node? && handler(elems[k]).Node?
    ensures Replacements(handler, elems, n) == seq(n, k requires 0 <= k < n => handler(elems[k]))
  {
    if n != 0 { MappingVisitor(handler, elems, n - 1); }
  }
}
