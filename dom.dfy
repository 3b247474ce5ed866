/** The parts of the browser that the three loaders touch, reduced to values
    and small objects: a node tree, the network's answer, the URL of a
    component, a parent's list of children, and a document fragment. */
module Dom {
  import opened Base

  /** A DOM node: an element (its `tagName`, whether it is an `HTMLElement`,
      its `childNodes`) or any other node (text, comment). */
  datatype Node =
    | Element(tagName: string, isHtml: bool, children: seq<Node>)
    | Other

  function Size(n: Node): (r: nat)
    ensures r >= 1
  {
    match n
    case Other => 1
    case Element(_, _, children) => 1 + SizeOf(children)
  }

  /** Total size of a node list, folded from the back so that it follows a
      left-to-right loop over the list. */
  function SizeOf(ns: seq<Node>): nat
  {
    if ns == [] then 0 else SizeOf(ns[..|ns| - 1]) + Size(ns[|ns| - 1])
  }

  lemma {:induction false} SizeOfBound(ns: seq<Node>, i: nat)
    requires i < |ns|
    ensures Size(ns[i]) <= SizeOf(ns)
    ensures SizeOf(ns[..i]) < SizeOf(ns)
  {
    var last := |ns| - 1;
    if i < last {
      assert ns[..last][i] == ns[i];
      assert ns[..last][..i] == ns[..i];
      SizeOfBound(ns[..last], i);
    } else {
      assert ns[..i] == ns[..last];
    }
  }

  /** The first node of a mutation record's `addedNodes`: `undefined` for a
      record that only removes nodes. */
  function FirstAdded(addedNodes: seq<Node>): (r: Option<Node>)
    ensures r.Some? <==> |addedNodes| > 0
  {
    if addedNodes == [] then None else Some(addedNodes[0])
  }

  /** What a component's `fetch` yields: a response with `ok` and its text, a
      response that is not `ok` (404 and the like), or a rejected promise. */
  datatype Response = Ok(body: string) | NotOk | NetworkError

  /** The request path `${base}/${tag}.html`. */
  function ComponentUrl(base: string, tag: string): string
  {
    base + "/" + tag + ".html"
  }

  /** Two requests under one base path name the same component only if the
      tags are the same: the tag is what lies between `base + "/"` and
      `".html"`. */
  lemma ComponentUrlInjective(base: string, a: string, b: string)
    ensures ComponentUrl(base, a) == ComponentUrl(base, b) <==> a == b
  {
    if ComponentUrl(base, a) == ComponentUrl(base, b) {
      var u := ComponentUrl(base, a);
      var n := |base| + 1;
      assert a == u[n..|u| - 5];
      assert b == ComponentUrl(base, b)[n..|u| - 5];
    }
  }

  /** What the two older loaders append to their container: the fragment
      parsed from the markup text, and a script element made from scratch with
      the script text. */
  datatype Item = ParsedMarkup(html: string) | FreshScript(text: string)

  /** The position of `x` in a list that holds it. */
  function IndexIn<T(==)>(s: seq<T>, x: T): (r: nat)
    requires x in s
    ensures r < |s| && s[r] == x
    ensures forall j :: 0 <= j < r ==> s[j] != x
  {
    if s[0] == x then 0 else 1 + IndexIn(s[1..], x)
  }

  /** `s` with its first `x` taken out. */
  function Without<T(==)>(s: seq<T>, x: T): seq<T>
    requires x in s
  {
    var i := IndexIn(s, x);
    s[..i] + s[i + 1..]
  }

  /** `s` with `x` put just before `ref`. */
  function InsertedBefore<T(==)>(s: seq<T>, x: T, ref: T): seq<T>
    requires ref in s
  {
    var i := IndexIn(s, ref);
    s[..i] + [x] + s[i..]
  }

  /** Taking a child out and putting it back before its old next sibling,
      or at the end when it was the last child, gives the list it started
      from. */
  lemma ReinsertRestores<T>(s: seq<T>, i: nat)
    requires NoDuplicates(s) && i < |s|
    ensures i + 1 < |s| ==>
      s[i + 1] in Without(s, s[i]) && InsertedBefore(Without(s, s[i]), s[i], s[i + 1]) == s
    ensures i + 1 == |s| ==> Without(s, s[i]) + [s[i]] == s
  {
    WithoutAt(s, i);
    if i + 1 < |s| {
      var rest := s[..i] + s[i + 1..];
      assert rest[i] == s[i + 1];
      IndexOfFirst(rest, i);
      assert rest[..i] + [s[i]] + rest[i..] == s by {
        assert rest[..i] == s[..i] && rest[i..] == s[i + 1..];
        assert s == s[..i] + [s[i]] + s[i + 1..];
      }
    } else {
      assert s == s[..i] + [s[i]];
    }
  }

  /** The position of an element that does not occur earlier. */
  lemma IndexOfFirst<T>(s: seq<T>, i: nat)
    requires i < |s| && forall j :: 0 <= j < i ==> s[j] != s[i]
    ensures IndexIn(s, s[i]) == i
  {
  }

  /** In a list without duplicates, taking out `s[i]` removes position `i`. */
  lemma WithoutAt<T>(s: seq<T>, i: nat)
    requires NoDuplicates(s) && i < |s|
    ensures Without(s, s[i]) == s[..i] + s[i + 1..]
  {
    assert IndexIn(s, s[i]) == i;
  }

  /** A node's list of children, by node identity. */
  class ParentNode {
    var childNodes: seq<nat>

    /** A node is a child at most once. */
    ghost predicate Valid()
      reads this
    {
      NoDuplicates(childNodes)
    }

    constructor (childNodes: seq<nat>)
      requires NoDuplicates(childNodes)
      ensures Valid() && this.childNodes == childNodes
    {
      this.childNodes := childNodes;
    }

    /** `child.nextSibling`: the child after it, `null` for the last. */
    function NextSibling(child: nat): (r: Option<nat>)
      reads this
      requires child in childNodes
      ensures r.Some? <==> IndexIn(childNodes, child) + 1 < |childNodes|
      ensures r.Some? ==> r.value == childNodes[IndexIn(childNodes, child) + 1]
    {
      var i := IndexIn(childNodes, child);
      if i + 1 < |childNodes| then Some(childNodes[i + 1]) else None
    }

    /** `removeChild`. */
    method RemoveChild(child: nat)
      requires Valid() && child in childNodes
      modifies this
      ensures Valid() && childNodes == Without(old(childNodes), child)
    {
      var i := IndexIn(childNodes, child);
      childNodes := childNodes[..i] + childNodes[i + 1..];
      assert forall x :: x in childNodes ==> x in old(childNodes);
    }

    /** `insertBefore` of a node that is not a child. */
    method InsertBefore(node: nat, ref: nat)
      requires Valid() && node !in childNodes && ref in childNodes
      modifies this
      ensures Valid() && childNodes == InsertedBefore(old(childNodes), node, ref)
    {
      var i := IndexIn(childNodes, ref);
      childNodes := childNodes[..i] + [node] + childNodes[i..];
      assert forall x :: x in childNodes ==> x in old(childNodes) || x == node;
      assert forall j :: 0 <= j < |childNodes| ==>
        childNodes[j] == if j < i then old(childNodes)[j] else if j == i then node else old(childNodes)[j - 1];
    }

    /** `appendChild` of a node that is not a child. */
    method AppendChild(node: nat)
      requires Valid() && node !in childNodes
      modifies this
      ensures Valid() && childNodes == old(childNodes) + [node]
    {
      childNodes := childNodes + [node];
    }
  }

  /** A node inside a document fragment, by identity: a script element
      (whose `innerHTML` is its text) or any other node. */
  datatype Child = Script(id: nat, text: string) | Plain(id: nat)

  /** Key of the fragment's own child list in `Fragment.lists`; every other
      key is the identity of an element inside the fragment. */
  const Root: nat := 0

  /** No two children of one list are the same node. */
  predicate UniqueIds(s: seq<Child>)
  {
    forall i, j :: 0 <= i < j < |s| ==> s[i].id != s[j].id
  }

  function CountScripts(s: seq<Child>): nat
  {
    if s == [] then 0 else (if s[0].Script? then 1 else 0) + CountScripts(s[1..])
  }

  /** `removeChild` on a child list: the node with identity `id` is taken
      out. */
  function RemoveId(s: seq<Child>, id: nat): seq<Child>
  {
    if s == [] then []
    else if s[0].id == id then s[1..]
    else [s[0]] + RemoveId(s[1..], id)
  }

  /** `innerHTML` of the script with identity `id` in `s` (empty when there
      is none). */
  function TextOf(s: seq<Child>, id: nat): string
  {
    if s == [] then ""
    else if s[0].id == id then (if s[0].Script? then s[0].text else "")
    else TextOf(s[1..], id)
  }

  /** `removeChild` adds no node. */
  lemma {:induction false} RemoveIdSubset(s: seq<Child>, id: nat)
    ensures forall x :: x in RemoveId(s, id) ==> x in s
  {
    if s != [] && s[0].id != id {
      RemoveIdSubset(s[1..], id);
      assert RemoveId(s, id) == [s[0]] + RemoveId(s[1..], id);
    }
  }

  /** `removeChild` keeps every child with another identity. */
  lemma {:induction false} RemoveIdKeepsOthers(s: seq<Child>, id: nat)
    ensures forall x :: x in s && x.id != id ==> x in RemoveId(s, id)
  {
    if s != [] {
      RemoveIdKeepsOthers(s[1..], id);
      forall x | x in s && x.id != id
        ensures x in RemoveId(s, id)
      {
        if x != s[0] {
          assert x in s[1..];
        }
      }
    }
  }

  /** A list that held no node twice still holds none twice after
      `removeChild`. */
  lemma {:induction false} RemoveIdUnique(s: seq<Child>, id: nat)
    requires UniqueIds(s)
    ensures UniqueIds(RemoveId(s, id))
  {
    if s != [] {
      var u := s[1..];
      assert UniqueIds(u) by {
        forall i, j | 0 <= i < j < |u|
          ensures u[i].id != u[j].id
        {
          assert u[i] == s[i + 1] && u[j] == s[j + 1];
        }
      }
      if s[0].id != id {
        var t := RemoveId(u, id);
        RemoveIdUnique(u, id);
        RemoveIdSubset(u, id);
        ConsUnique(s[0], t, u);
        assert RemoveId(s, id) == [s[0]] + t;
      }
    }
  }

  /** Putting in front a node whose identity the rest does not hold keeps
      the identities unique. */
  lemma ConsUnique(x: Child, t: seq<Child>, u: seq<Child>)
    requires UniqueIds(t) && UniqueIds([x] + u)
    requires forall y :: y in t ==> y in u
    ensures UniqueIds([x] + t)
  {
    forall j | 0 <= j < |t|
      ensures t[j].id != x.id
    {
      assert t[j] in u;
      var k :| 0 <= k < |u| && u[k] == t[j];
      assert ([x] + u)[0] == x && ([x] + u)[k + 1] == t[j];
    }
    forall i, j | 0 <= i < j < |[x] + t|
      ensures ([x] + t)[i].id != ([x] + t)[j].id
    {
      assert ([x] + t)[j] == t[j - 1];
      if i > 0 {
        assert ([x] + t)[i] == t[i - 1];
      }
    }
  }

  /** No list holds a node twice, every node's identity was handed out
      before `nextId`, and none is `Root`, the fragment's own key. */
  ghost predicate IdsBelow(lists: map<nat, seq<Child>>, nextId: nat)
  {
    Root < nextId &&
    (forall k :: k in lists ==> UniqueIds(lists[k])) &&
    (forall k, i :: k in lists && 0 <= i < |lists[k]| ==> Root < lists[k][i].id < nextId)
  }

  /** A document fragment: its own child list and those of the elements in
      it, keyed by element identity, and the identity the next created node
      gets. */
  class Fragment {
    var lists: map<nat, seq<Child>>
    var nextId: nat

    /** The fragment has its own list, and `IdsBelow` holds. */
    ghost predicate Valid()
      reads this
    {
      Root in lists && IdsBelow(lists, nextId)
    }

    /** `document.createDocumentFragment()`, with the subtrees that are about
        to be moved into it already described by `inner`. */
    constructor (inner: map<nat, seq<Child>>, nextId: nat)
      requires IdsBelow(inner, nextId)
      ensures Valid()
      ensures lists == inner[Root := []] && this.nextId == nextId
    {
      lists, this.nextId := inner[Root := []], nextId;
    }

    /** `document.createElement('script')` with a text node of `text`: a
        node no list holds yet. */
    method CreateScript(text: string) returns (c: Child)
      requires Valid()
      modifies this`nextId
      ensures Valid()
      ensures c == Script(old(nextId), text) && nextId == old(nextId) + 1
      ensures forall k, i :: k in lists && 0 <= i < |lists[k]| ==> lists[k][i].id != c.id
    {
      c := Script(nextId, text);
      nextId := nextId + 1;
      forall k, i | k in lists && 0 <= i < |lists[k]|
        ensures lists[k][i].id < old(nextId) < nextId
      {
      }
    }

    /** `appendChild` on the element (or fragment) with key `k`, of a node
        that is not already one of its children. */
    method AppendChild(k: nat, c: Child)
      requires Valid() && k in lists && Root < c.id < nextId
      requires forall i :: 0 <= i < |lists[k]| ==> lists[k][i].id != c.id
      modifies this`lists
      ensures Valid()
      ensures lists == old(lists)[k := old(lists)[k] + [c]]
    {
      lists := lists[k := lists[k] + [c]];
    }

    /** `removeChild` on the element (or fragment) with key `k`. */
    method RemoveChild(k: nat, id: nat)
      requires Valid() && k in lists
      modifies this`lists
      ensures Valid()
      ensures lists == old(lists)[k := RemoveId(old(lists)[k], id)]
    {
      var s := lists[k];
      RemoveIdSubset(s, id);
      RemoveIdUnique(s, id);
      forall i | 0 <= i < |RemoveId(s, id)|
        ensures Root < RemoveId(s, id)[i].id < nextId
      {
        assert RemoveId(s, id)[i] in s;
      }
      lists := lists[k := RemoveId(s, id)];
    }
  }
}
