/**
 * A value model of the HTML documents the scrapers read. Parsing and CSS
 * selector matching are done by a library outside this model; what the code
 * receives from it is a selection, a sequence of nodes in document order.
 */
module Dom {

  import opened Wrappers

  datatype Node =
    | Element(tag: string, attrs: map<string, string>, children: seq<Node>)
    | Text(data: string)

  /** The nodes a selector matched, in document order. */
  type Selection = seq<Node>

  /** `Text()`: the text of every text node below `n`, in document order. */
  function TextOf(n: Node): string
  {
    match n
    case Text(data) => data
    case Element(_, _, children) => TextOfAll(children)
  }

  function TextOfAll(nodes: seq<Node>): string
  {
    if nodes == [] then "" else TextOf(nodes[0]) + TextOfAll(nodes[1..])
  }

  /** `AttrOr(name, default)` on one node. */
  function AttrOr(n: Node, name: string, default: string): string
  {
    if n.Element? && name in n.attrs then n.attrs[name] else default
  }

  /** `Eq(0).Text()`: the text of the first node, "" when nothing matched. */
  function FirstText(sel: Selection): (r: string)
    ensures sel == [] ==> r == ""
    ensures sel != [] ==> r == TextOf(sel[0])
  {
    if sel == [] then "" else TextOf(sel[0])
  }

  /** `Eq(0).AttrOr(name, "")`: the attribute of the first node, "" when nothing
      matched or the first node lacks it. */
  function FirstAttr(sel: Selection, name: string): (r: string)
    ensures sel == [] ==> r == ""
    ensures sel != [] && sel[0].Element? && name in sel[0].attrs ==> r == sel[0].attrs[name]
    ensures sel != [] && !(sel[0].Element? && name in sel[0].attrs) ==> r == ""
  {
    if sel == [] then "" else AttrOr(sel[0], name, "")
  }

  /** A simple selector: a tag name, optionally with a required attribute (`a[title]`). */
  datatype Selector = Selector(tag: string, attr: Option<string>)

  predicate Matches(n: Node, s: Selector)
  {
    n.Element? && n.tag == s.tag && (s.attr.Some? ==> s.attr.value in n.attrs)
  }

  /** Some node of the forest, at any depth, matches `s`. */
  predicate Any(nodes: seq<Node>, s: Selector)
  {
    nodes != [] &&
    (Matches(nodes[0], s) || (nodes[0].Element? && Any(nodes[0].children, s)) || Any(nodes[1..], s))
  }

  /** Removing every node that matches `s`, with everything below it, as
      `Find(s)` followed by `Remove()` on each result does. */
  function RemoveAll(nodes: seq<Node>, s: Selector): (r: seq<Node>)
    ensures !Any(r, s)
  {
    if nodes == [] then []
    else
      var rest := RemoveAll(nodes[1..], s);
      if Matches(nodes[0], s) then rest
      else
        var kept := match nodes[0]
          case Text(_) => nodes[0]
          case Element(tag, attrs, children) => Element(tag, attrs, RemoveAll(children, s));
        [kept] + rest
  }

  /** A forest with nothing to remove is left as it is. */
  lemma {:induction false} RemoveAllNothing(nodes: seq<Node>, s: Selector)
    requires !Any(nodes, s)
    ensures RemoveAll(nodes, s) == nodes
  {
    if nodes != [] {
      RemoveAllNothing(nodes[1..], s);
      if nodes[0].Element? {
        RemoveAllNothing(nodes[0].children, s);
      }
      assert nodes == [nodes[0]] + nodes[1..];
    }
  }

  /** Removing nodes never makes a selector match where it did not before. */
  lemma {:induction false} RemoveAllAddsNothing(nodes: seq<Node>, s: Selector, t: Selector)
    requires Any(RemoveAll(nodes, s), t)
    ensures Any(nodes, t)
  {
    var rest := RemoveAll(nodes[1..], s);
    if Matches(nodes[0], s) {
      RemoveAllAddsNothing(nodes[1..], s, t);
    } else {
      var r := RemoveAll(nodes, s);
      assert r[1..] == rest;
      if Any(rest, t) {
        RemoveAllAddsNothing(nodes[1..], s, t);
      } else if nodes[0].Element? && !Matches(nodes[0], t) {
        RemoveAllAddsNothing(nodes[0].children, s, t);
      }
    }
  }

  /** Removing twice is removing once. */
  lemma RemoveAllIdempotent(nodes: seq<Node>, s: Selector)
    ensures RemoveAll(RemoveAll(nodes, s), s) == RemoveAll(nodes, s)
  {
    RemoveAllNothing(RemoveAll(nodes, s), s);
  }

  /** Some node matching `t` is reachable without entering a node that matches `s`:
      a `t`-node with no `s`-node at or above it. */
  predicate AnyOutside(nodes: seq<Node>, s: Selector, t: Selector)
  {
    nodes != [] &&
    ((!Matches(nodes[0], s) &&
      (Matches(nodes[0], t) || (nodes[0].Element? && AnyOutside(nodes[0].children, s, t))))
     || AnyOutside(nodes[1..], s, t))
  }

  /** Exactly the removed subtrees are gone: after removal a selector matches somewhere
      if and only if it matched a node that had no removed node at or above it. */
  lemma {:induction false} RemoveAllKeeps(nodes: seq<Node>, s: Selector, t: Selector)
    ensures Any(RemoveAll(nodes, s), t) <==> AnyOutside(nodes, s, t)
  {
    if nodes != [] {
      var rest := RemoveAll(nodes[1..], s);
      RemoveAllKeeps(nodes[1..], s, t);
      if !Matches(nodes[0], s) {
        var r := RemoveAll(nodes, s);
        assert r[1..] == rest;
        if nodes[0].Element? {
          RemoveAllKeeps(nodes[0].children, s, t);
        }
      }
    }
  }

  /** The text left outside the subtrees that match `s`, in document order. */
  function TextOutside(nodes: seq<Node>, s: Selector): string
  {
    if nodes == [] then ""
    else
      var own := if Matches(nodes[0], s) then ""
        else match nodes[0]
          case Text(data) => data
          case Element(_, _, children) => TextOutside(children, s);
      own + TextOutside(nodes[1..], s)
  }

  /** Removal keeps all the text outside the removed subtrees, in order, and no other. */
  lemma {:induction false} RemoveAllText(nodes: seq<Node>, s: Selector)
    ensures TextOfAll(RemoveAll(nodes, s)) == TextOutside(nodes, s)
  {
    if nodes != [] {
      var rest := RemoveAll(nodes[1..], s);
      RemoveAllText(nodes[1..], s);
      if !Matches(nodes[0], s) {
        var r := RemoveAll(nodes, s);
        assert r[1..] == rest;
        if nodes[0].Element? {
          RemoveAllText(nodes[0].children, s);
        }
      }
    }
  }

  /** `Find(s).Eq(0)`: the first node, in document order, that matches `s`. */
  function FindFirst(nodes: seq<Node>, s: Selector): (r: Option<Node>)
    ensures r.Some? ==> Matches(r.value, s)
    ensures r.None? <==> !Any(nodes, s)
  {
    if nodes == [] then None
    else if Matches(nodes[0], s) then Some(nodes[0])
    else
      var inside := if nodes[0].Element? then FindFirst(nodes[0].children, s) else None;
      if inside.Some? then inside else FindFirst(nodes[1..], s)
  }

  /** What FindFirst returns lies inside the forest: a forest without any `other`
      node cannot yield a node with one below it. */
  lemma {:induction false} FindFirstInside(nodes: seq<Node>, s: Selector, other: Selector)
    requires FindFirst(nodes, s).Some?
    requires !Any(nodes, other)
    ensures !Any([FindFirst(nodes, s).value], other)
  {
    var n := nodes[0];
    if Matches(n, s) {
      assert [n][1..] == [];
    } else if n.Element? && FindFirst(n.children, s).Some? {
      FindFirstInside(n.children, s, other);
    } else {
      FindFirstInside(nodes[1..], s, other);
    }
  }

  /** Every node of the forest in document order: each node, then the nodes below it. */
  function Preorder(nodes: seq<Node>): seq<Node>
  {
    if nodes == [] then []
    else [nodes[0]] + Below(nodes[0]) + Preorder(nodes[1..])
  }

  /** The nodes below `n`, in document order. */
  function Below(n: Node): seq<Node>
  {
    match n
    case Text(_) => []
    case Element(_, _, children) => Preorder(children)
  }

  /** The least position at or after `i` whose node matches `s`, or |flat|. */
  function FirstMatchFrom(flat: seq<Node>, s: Selector, i: nat): (n: nat)
    requires i <= |flat|
    ensures i <= n <= |flat|
    ensures forall k | i <= k < n :: !Matches(flat[k], s)
    ensures n == |flat| || Matches(flat[n], s)
    decreases |flat| - i
  {
    if i < |flat| && !Matches(flat[i], s) then FirstMatchFrom(flat, s, i + 1) else i
  }

  /** The first node of a sequence that matches `s`. */
  function FirstInOrder(flat: seq<Node>, s: Selector): (r: Option<Node>)
    ensures r.None? <==> forall k | 0 <= k < |flat| :: !Matches(flat[k], s)
    ensures r.Some? ==> exists i | 0 <= i < |flat| ::
      (flat[i] == r.value && Matches(flat[i], s) && forall k | 0 <= k < i :: !Matches(flat[k], s))
  {
    var n := FirstMatchFrom(flat, s, 0);
    if n < |flat| then Some(flat[n]) else None
  }

  lemma {:induction false} FirstMatchAt(flat: seq<Node>, s: Selector, i: nat, n: nat)
    requires i <= n <= |flat|
    requires forall k | i <= k < n :: !Matches(flat[k], s)
    requires n == |flat| || Matches(flat[n], s)
    ensures FirstMatchFrom(flat, s, i) == n
    decreases n - i
  {
    if i < n {
      FirstMatchAt(flat, s, i + 1, n);
    }
  }

  /** The first match of a concatenation is the first match of its first part, if any. */
  lemma FirstInOrderAppend(a: seq<Node>, b: seq<Node>, s: Selector)
    ensures FirstInOrder(a + b, s) == if FirstInOrder(a, s).Some? then FirstInOrder(a, s) else FirstInOrder(b, s)
  {
    var na := FirstMatchFrom(a, s, 0);
    if na < |a| {
      FirstMatchAt(a + b, s, 0, na);
    } else {
      var nb := FirstMatchFrom(b, s, 0);
      assert forall k | 0 <= k < |a| :: (a + b)[k] == a[k];
      assert forall k | 0 <= k < |b| :: (a + b)[|a| + k] == b[k];
      FirstMatchAt(a + b, s, 0, |a| + nb);
    }
  }

  lemma FirstInOrderOne(n: Node, s: Selector)
    ensures FirstInOrder([n], s) == if Matches(n, s) then Some(n) else None
  {
  }

  /** `FindFirst` is the first matching node in document order. */
  lemma {:induction false} FindFirstInDocumentOrder(nodes: seq<Node>, s: Selector)
    ensures FindFirst(nodes, s) == FirstInOrder(Preorder(nodes), s)
  {
    if nodes != [] {
      var n, rest := nodes[0], nodes[1..];
      var below := Below(n);
      FindFirstInDocumentOrder(rest, s);
      if n.Element? {
        FindFirstInDocumentOrder(n.children, s);
      }
      assert FirstInOrder(below, s) == if n.Element? then FindFirst(n.children, s) else None;
      FirstInOrderOne(n, s);
      FirstInOrderAppend([n], below, s);
      FirstInOrderAppend([n] + below, Preorder(rest), s);
    }
  }
}
