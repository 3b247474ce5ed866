/** celo.mjs, the module loader: configurable path and container id, a
    depth-first walk that records each new hyphenated tag after its
    descendants, a list of loaded tags shared with a wrapped
    `customElements.define`, an idempotent container, the re-insertion of
    pre-existing elements, and the rebuilding of scripts in a fetched
    fragment. */
module CeloModule {
  import opened Base
  import opened Text
  import opened Dom

  // ---------------------------------------------------------------------
  // Configuration

  /** `window.celoConfig`: each setting is absent or a string. */
  datatype Config = Config(componentsPath: Option<string>, containerId: Option<string>)

  const DefaultComponentsPath: string := "/components"
  const DefaultContainerId: string := "_celo"

  /** `value ? value : fallback` for a string setting: `undefined` and the
      empty string are falsy. */
  function OrDefault(value: Option<string>, fallback: string): string
  {
    if value.Some? && value.value != "" then value.value else fallback
  }

  function ComponentsPath(celoConfig: Option<Config>): string
  {
    var config := if celoConfig.Some? then celoConfig.value else Config(None, None);
    OrDefault(config.componentsPath, DefaultComponentsPath)
  }

  function ContainerId(celoConfig: Option<Config>): string
  {
    var config := if celoConfig.Some? then celoConfig.value else Config(None, None);
    OrDefault(config.containerId, DefaultContainerId)
  }

  /** A missing `celoConfig`, a missing entry and an empty entry all give
      the default; a non-empty entry is used as it is; so neither setting is
      ever empty. */
  lemma ConfigDefaults(celoConfig: Option<Config>)
    ensures ComponentsPath(celoConfig) != "" && ContainerId(celoConfig) != ""
    ensures ComponentsPath(celoConfig) ==
      if celoConfig.Some? && celoConfig.value.componentsPath.Some? &&
         celoConfig.value.componentsPath.value != ""
      then celoConfig.value.componentsPath.value else "/components"
    ensures ContainerId(celoConfig) ==
      if celoConfig.Some? && celoConfig.value.containerId.Some? &&
         celoConfig.value.containerId.value != ""
      then celoConfig.value.containerId.value else "_celo"
  {
  }

  // ---------------------------------------------------------------------
  // The tree walk of `parseElements`

  /** `loadedComponents` after `parseElements` has visited `n`: nodes that
      are not `HTMLElement`s are skipped with their subtrees; an element's
      children are visited first, then its own tag is recorded, lowercased,
      if it has a hyphen and is not yet in the list. */
  function WalkNode(loaded: seq<string>, n: Node): (r: seq<string>)
    decreases Size(n), 0
    ensures |loaded| <= |r| && r[..|loaded|] == loaded
  {
    match n
    case Other => loaded
    case Element(tag, isHtml, children) =>
      if !isHtml then loaded
      else
        var after := WalkNodes(loaded, children);
        if '-' in tag && Lower(tag) !in after then after + [Lower(tag)] else after
  }

  /** `loadedComponents` after `parseElements` has visited the nodes `ns`
      in order. */
  function WalkNodes(loaded: seq<string>, ns: seq<Node>): (r: seq<string>)
    decreases SizeOf(ns), 1
    ensures |loaded| <= |r| && r[..|loaded|] == loaded
  {
    if ns == [] then loaded
    else WalkNode(WalkNodes(loaded, ns[..|ns| - 1]), ns[|ns| - 1])
  }

  /** The lowercase hyphenated tags of the `HTMLElement`s in `n` that are
      reached through `HTMLElement`s only. */
  ghost function Tags(n: Node): set<string>
    decreases Size(n), 0
  {
    match n
    case Other => {}
    case Element(tag, isHtml, children) =>
      if !isHtml then {}
      else TagsOf(children) + if '-' in tag then {Lower(tag)} else {}
  }

  ghost function TagsOf(ns: seq<Node>): set<string>
    decreases SizeOf(ns), 1
  {
    if ns == [] then {} else TagsOf(ns[..|ns| - 1]) + Tags(ns[|ns| - 1])
  }

  /** After a walk the list holds exactly what it held before plus every tag
      found in the tree. */
  lemma {:induction false} WalkNodeMembership(loaded: seq<string>, n: Node, t: string)
    decreases Size(n), 0
    ensures t in WalkNode(loaded, n) <==> t in loaded || t in Tags(n)
  {
    match n
    case Other =>
    case Element(tag, isHtml, children) =>
      if isHtml {
        WalkNodesMembership(loaded, children, t);
      }
  }

  lemma {:induction false} WalkNodesMembership(loaded: seq<string>, ns: seq<Node>, t: string)
    decreases SizeOf(ns), 1
    ensures t in WalkNodes(loaded, ns) <==> t in loaded || t in TagsOf(ns)
  {
    if ns != [] {
      var front := ns[..|ns| - 1];
      WalkNodesMembership(loaded, front, t);
      WalkNodeMembership(WalkNodes(loaded, front), ns[|ns| - 1], t);
    }
  }

  /** What a walk appends is new: no appended tag was in the list before,
      and none is appended twice.  So a tag already loaded (by an earlier
      walk, `markDefined` or `customElements.define`) starts no fetch, and
      no fetch is started twice. */
  lemma {:induction false} WalkNodeAddsFresh(loaded: seq<string>, n: Node)
    decreases Size(n), 0
    ensures var added := WalkNode(loaded, n)[|loaded|..];
      NoDuplicates(added) && forall t :: t in added ==> t !in loaded
  {
    match n
    case Other =>
    case Element(tag, isHtml, children) =>
      if isHtml {
        WalkNodesAddsFresh(loaded, children);
        var after := WalkNodes(loaded, children);
        if '-' in tag && Lower(tag) !in after {
          assert WalkNode(loaded, n)[|loaded|..] == after[|loaded|..] + [Lower(tag)];
          assert forall t :: t in after[|loaded|..] ==> t in after;
        }
      }
  }

  lemma {:induction false} WalkNodesAddsFresh(loaded: seq<string>, ns: seq<Node>)
    decreases SizeOf(ns), 1
    ensures var added := WalkNodes(loaded, ns)[|loaded|..];
      NoDuplicates(added) && forall t :: t in added ==> t !in loaded
  {
    if ns != [] {
      var mid := WalkNodes(loaded, ns[..|ns| - 1]);
      var r := WalkNode(mid, ns[|ns| - 1]);
      WalkNodesAddsFresh(loaded, ns[..|ns| - 1]);
      WalkNodeAddsFresh(mid, ns[|ns| - 1]);
      var a, b := mid[|loaded|..], r[|mid|..];
      assert r[|loaded|..] == a + b;
      assert forall t :: t in a ==> t in mid;
      assert forall t :: t in loaded ==> t in mid;
      NoDuplicatesConcat(a, b);
    }
  }

  lemma NoDuplicatesConcat(a: seq<string>, b: seq<string>)
    requires NoDuplicates(a) && NoDuplicates(b) && forall t :: t in b ==> t !in a
    ensures NoDuplicates(a + b)
  {
    forall i, j | 0 <= i < j < |a + b|
      ensures (a + b)[i] != (a + b)[j]
    {
      if i < |a| <= j {
        assert (a + b)[j] in b;
      }
    }
  }

  /** Post-order: a new element's tag is recorded right after everything its
      subtree records. */
  lemma RecordedAfterDescendants(loaded: seq<string>, tag: string, children: seq<Node>)
    requires '-' in tag && Lower(tag) !in loaded && Lower(tag) !in TagsOf(children)
    ensures WalkNode(loaded, Element(tag, true, children)) == WalkNodes(loaded, children) + [Lower(tag)]
  {
    WalkNodesMembership(loaded, children, Lower(tag));
  }

  /** The first added node of each record, for records that have one. */
  function FirstNodes(records: seq<seq<Node>>): (r: seq<Node>)
    ensures |r| <= |records|
  {
    if records == [] then []
    else
      var last := records[|records| - 1];
      FirstNodes(records[..|records| - 1]) + if last == [] then [] else [last[0]]
  }

  /** The nodes walked are exactly the first added nodes of the records
      that have one. */
  lemma {:induction false} FirstNodesMembership(records: seq<seq<Node>>)
    ensures forall i :: 0 <= i < |records| && records[i] != [] ==> records[i][0] in FirstNodes(records)
    ensures forall n :: n in FirstNodes(records) ==>
      exists i :: 0 <= i < |records| && records[i] != [] && records[i][0] == n
  {
    if records != [] {
      var front := records[..|records| - 1];
      FirstNodesMembership(front);
      forall i | 0 <= i < |front|
        ensures front[i] == records[i]
      {
      }
    }
  }

  /** The number of `#containerId` elements after `setUpContainer`: one is
      created only when there is none and the body exists. */
  function SetUp(containers: nat, bodyExists: bool): nat
  {
    if containers == 0 && bodyExists then 1 else containers
  }

  /** `setUpContainer` is idempotent and never makes a second container. */
  lemma SetUpIdempotent(containers: nat, bodyExists: bool)
    ensures SetUp(SetUp(containers, bodyExists), bodyExists) == SetUp(containers, bodyExists)
    ensures containers <= 1 ==> SetUp(containers, bodyExists) <= 1
    ensures SetUp(containers, bodyExists) >= 1 <==> containers >= 1 || bodyExists
  {
  }

  /** From (`l0`, `f0`, `c0`) to (`l`, `f`, `c`) the list only grew, a fetch
      was started for each tag it gained, in order, and the container was
      set up if anything was gained. */
  ghost predicate Gained(l0: seq<string>, f0: seq<string>, c0: nat,
                         l: seq<string>, f: seq<string>, c: nat, bodyExists: bool)
  {
    |l0| <= |l| && l[..|l0|] == l0 && f == f0 + l[|l0|..] &&
    c == if |l| == |l0| then c0 else SetUp(c0, bodyExists)
  }

  /** Gaining in two steps is gaining. */
  lemma GainedTrans(l0: seq<string>, f0: seq<string>, c0: nat,
                    l1: seq<string>, f1: seq<string>, c1: nat,
                    l2: seq<string>, f2: seq<string>, c2: nat, bodyExists: bool)
    requires Gained(l0, f0, c0, l1, f1, c1, bodyExists)
    requires Gained(l1, f1, c1, l2, f2, c2, bodyExists)
    ensures Gained(l0, f0, c0, l2, f2, c2, bodyExists)
  {
    assert l2[..|l0|] == l2[..|l1|][..|l0|];
    assert l2[|l0|..] == l1[|l0|..] + l2[|l1|..];
  }

  /** One more record adds its first node, if any, to the walk. */
  lemma FirstNodesStep(records: seq<seq<Node>>, i: nat)
    requires i < |records|
    ensures records[i] == [] ==> FirstNodes(records[..i + 1]) == FirstNodes(records[..i])
    ensures records[i] != [] ==> FirstNodes(records[..i + 1]) == FirstNodes(records[..i]) + [records[i][0]]
  {
    assert records[..i + 1][..i] == records[..i];
  }

  /** A name recorded before a walk (as the wrapped `customElements.define`
      records it) is never recorded, so never fetched, by that walk. */
  lemma DefinedSkipped(loaded: seq<string>, name: string, ns: seq<Node>)
    ensures name !in WalkNodes(loaded + [name], ns)[|loaded| + 1..]
  {
    WalkNodesAddsFresh(loaded + [name], ns);
    assert name in loaded + [name];
  }

  /** Walking one more node is walking it after the others. */
  lemma WalkNodesSnoc(loaded: seq<string>, ns: seq<Node>, x: Node)
    ensures WalkNodes(loaded, ns + [x]) == WalkNode(WalkNodes(loaded, ns), x)
  {
    assert (ns + [x])[..|ns|] == ns;
  }

  /** How a step of the pipeline ended: it returned `false`, returned
      something else, or threw (a rejected promise). */
  datatype Completion = ReturnedFalse | Returned | Threw

  // ---------------------------------------------------------------------
  // The loader's state

  class Celo {
    const componentsPath: string
    const containerId: string
    /** The tags recorded as loaded (celo.mjs `loadedComponents`). */
    var loadedComponents: seq<string>
    /** The tags whose markup fetch has been started, in order; the request
        for `t` is `ComponentUrl(componentsPath, t)`. */
    var fetched: seq<string>
    var bodyExists: bool
    /** How many elements carry the id `containerId`. */
    var containers: nat
    /** The children of the first of them, the one `#containerId` finds. */
    var hosted: seq<Child>

    /** Every fetch was for a recorded tag, and no tag was fetched twice. */
    ghost predicate Valid()
      reads this
    {
      NoDuplicates(fetched) && forall t :: t in fetched ==> t in loadedComponents
    }

    /** Since the snapshot (`l0`, `f0`, `c0`): see `Gained`. */
    ghost predicate GainedSince(l0: seq<string>, f0: seq<string>, c0: nat)
      reads this
    {
      Gained(l0, f0, c0, loadedComponents, fetched, containers, bodyExists)
    }

    /** The module's start-up: read the configuration, then
        `setUpContainer()`. */
    constructor (celoConfig: Option<Config>, bodyExists: bool, containers: nat)
      ensures Valid()
      ensures componentsPath == ComponentsPath(celoConfig) && containerId == ContainerId(celoConfig)
      ensures loadedComponents == [] && fetched == [] && hosted == []
      ensures this.bodyExists == bodyExists && this.containers == SetUp(containers, bodyExists)
    {
      componentsPath := ComponentsPath(celoConfig);
      containerId := ContainerId(celoConfig);
      loadedComponents, fetched, hosted := [], [], [];
      this.bodyExists, this.containers := bodyExists, containers;
      new;
      SetUpContainer();
    }

    /** `isNew`: a query that leaves the list alone.  `parseElements`
        makes the same test inline: for a hyphenated element with no
        children, a walk records its tag exactly when `isNew` holds, and a
        new tag has had no fetch yet. */
    function IsNew(tagName: string): (r: bool)
      requires Valid()
      reads this
      ensures '-' in tagName ==>
        (r <==> WalkNode(loadedComponents, Element(tagName, true, [])) != loadedComponents)
      ensures r ==> Lower(tagName) !in fetched
    {
      Lower(tagName) !in loadedComponents
    }

    /** `markDefined`: records the tag as it is given, whether or not it is
        already there. */
    method MarkDefined(tagName: string)
      requires Valid()
      modifies this`loadedComponents
      ensures Valid() && loadedComponents == old(loadedComponents) + [tagName]
      ensures Lower(tagName) == tagName ==> !IsNew(tagName)
    {
      loadedComponents := loadedComponents + [tagName];
    }

    /** The wrapped `customElements.define`: records its first argument,
        then forwards every argument to the original function. */
    method Define(name: string)
      requires Valid()
      modifies this`loadedComponents
      ensures Valid() && loadedComponents == old(loadedComponents) + [name]
      ensures Lower(name) == name ==> !IsNew(name)
    {
      loadedComponents := loadedComponents + [name];
    }

    /** The parser inserts `<body>`: from now on `setUpContainer` can create
        the container, which is why every new tag calls it again. */
    method InsertBody()
      modifies this`bodyExists
      ensures bodyExists
    {
      bodyExists := true;
    }

    /** `setUpContainer`. */
    method SetUpContainer()
      modifies this`containers
      ensures containers == SetUp(old(containers), bodyExists)
    {
      if containers == 0 && bodyExists {
        containers := 1;
      }
    }

    /** `parseElements` on one node. */
    method ParseNode(n: Node)
      requires Valid()
      modifies this
      decreases Size(n), 0
      ensures Valid() && loadedComponents == WalkNode(old(loadedComponents), n)
      ensures GainedSince(old(loadedComponents), old(fetched), old(containers))
      ensures hosted == old(hosted) && bodyExists == old(bodyExists)
      ensures n.Element? && n.isHtml && n.children == [] && '-' in n.tagName ==>
        fetched == old(fetched) + if old(IsNew(n.tagName)) then [Lower(n.tagName)] else []
    {
      ghost var l0, f0, c0 := loadedComponents, fetched, containers;
      match n
      case Other =>
      case Element(tag, isHtml, children) =>
        if isHtml {
          ParseNodes(children);
          if '-' in tag {
            var tagName := Lower(tag);
            if tagName !in loadedComponents {
              ghost var l1, f1, c1 := loadedComponents, fetched, containers;
              SetUpContainer();
              MarkDefined(tagName);
              fetched := fetched + [tagName];
              assert loadedComponents[|l1|..] == [tagName];
              GainedTrans(l0, f0, c0, l1, f1, c1, loadedComponents, fetched, containers, bodyExists);
            }
          }
        }
    }

    /** `parseElements` on a node list: each node in order. */
    method ParseNodes(nodes: seq<Node>)
      requires Valid()
      modifies this
      decreases SizeOf(nodes), 1
      ensures Valid() && loadedComponents == WalkNodes(old(loadedComponents), nodes)
      ensures GainedSince(old(loadedComponents), old(fetched), old(containers))
      ensures hosted == old(hosted) && bodyExists == old(bodyExists)
    {
      var i := 0;
      while i < |nodes|
        invariant i <= |nodes|
        invariant Valid() && loadedComponents == WalkNodes(old(loadedComponents), nodes[..i])
        invariant GainedSince(old(loadedComponents), old(fetched), old(containers))
        invariant hosted == old(hosted) && bodyExists == old(bodyExists)
      {
        SizeOfBound(nodes, i);
        ghost var l1, f1, c1 := loadedComponents, fetched, containers;
        ParseNode(nodes[i]);
        GainedTrans(old(loadedComponents), old(fetched), old(containers), l1, f1, c1,
                    loadedComponents, fetched, containers, bodyExists);
        assert nodes[..i + 1] == nodes[..i] + [nodes[i]];
        WalkNodesSnoc(old(loadedComponents), nodes[..i], nodes[i]);
        i := i + 1;
      }
      assert nodes[..i] == nodes;
    }

    /** The observer's callback: each record's first added node is walked. */
    method ParseElements(records: seq<seq<Node>>)
      requires Valid()
      modifies this
      ensures Valid() && loadedComponents == WalkNodes(old(loadedComponents), FirstNodes(records))
      ensures GainedSince(old(loadedComponents), old(fetched), old(containers))
      ensures hosted == old(hosted) && bodyExists == old(bodyExists)
    {
      var i := 0;
      while i < |records|
        invariant i <= |records|
        invariant Valid() && loadedComponents == WalkNodes(old(loadedComponents), FirstNodes(records[..i]))
        invariant GainedSince(old(loadedComponents), old(fetched), old(containers))
        invariant hosted == old(hosted) && bodyExists == old(bodyExists)
      {
        FirstNodesStep(records, i);
        if records[i] != [] {
          ghost var l1, f1, c1 := loadedComponents, fetched, containers;
          ParseNode(records[i][0]);
          GainedTrans(old(loadedComponents), old(fetched), old(containers), l1, f1, c1,
                      loadedComponents, fetched, containers, bodyExists);
          WalkNodesSnoc(old(loadedComponents), FirstNodes(records[..i]), records[i][0]);
        }
        i := i + 1;
      }
      assert records[..i] == records;
    }

    /** `addToDOM`: a falsy fragment returns `false`; otherwise the
        fragment's children move to the end of `#containerId`, which throws
        when there is no such element. */
    method AddToDOM(fragment: Fragment?) returns (r: Completion)
      requires fragment != null ==> Root in fragment.lists
      modifies this`hosted, fragment
      ensures fragment != null ==> fragment.nextId == old(fragment.nextId)
      ensures fragment == null ==> r == ReturnedFalse && hosted == old(hosted)
      ensures fragment != null && containers == 0 ==>
        r == Threw && hosted == old(hosted) && fragment.lists == old(fragment.lists)
      ensures fragment != null && containers > 0 ==>
        r == Returned && hosted == old(hosted) + old(fragment.lists[Root]) &&
        fragment.lists == old(fragment.lists)[Root := []]
    {
      if fragment == null {
        return ReturnedFalse;
      }
      if containers == 0 {
        return Threw;
      }
      hosted := hosted + fragment.lists[Root];
      fragment.lists := fragment.lists[Root := []];
      return Returned;
    }

    /** The chain after `getMarkUp` has settled: `injectMarkup` →
        `recreateScripts` → `addToDOM`.  `parsed` is what the HTML parser
        makes of the text, and `scripts` what `querySelectorAll('script')`
        then finds. */
    method Render(response: Response, parsed: map<nat, seq<Child>>, firstId: nat, scripts: seq<ScriptRef>)
      returns (r: Completion)
      requires Root in parsed && IdsBelow(parsed, firstId)
      requires forall s :: s in scripts ==> s.parent in parsed
      modifies this`hosted
      ensures r == Returned <==> response.Ok? && response.body != "" && containers > 0
      ensures hosted ==
        if r == Returned then old(hosted) + RecreateAll(parsed, scripts, firstId)[Root] else old(hosted)
    {
      if response.NetworkError? {
        return Threw;
      }
      var markUp := if response.Ok? then Some(response.body) else None;
      var fragment := InjectMarkup(markUp, parsed, firstId);
      fragment := RecreateScripts(fragment, scripts);
      r := AddToDOM(fragment);
    }
  }

  /** Every fetch the walks start is for a different component URL. */
  lemma FetchedOnce(loader: Celo)
    requires loader.Valid()
    ensures forall i, j :: 0 <= i < j < |loader.fetched| ==>
      ComponentUrl(loader.componentsPath, loader.fetched[i]) != ComponentUrl(loader.componentsPath, loader.fetched[j])
  {
    forall i, j | 0 <= i < j < |loader.fetched|
      ensures ComponentUrl(loader.componentsPath, loader.fetched[i]) != ComponentUrl(loader.componentsPath, loader.fetched[j])
    {
      ComponentUrlInjective(loader.componentsPath, loader.fetched[i], loader.fetched[j]);
    }
  }

  /** `reparseElement`: the element is taken out of its parent and put back
      before its old next sibling, or at the end when it had none, so that
      the observer reports it as added while the parent's children end up
      as they were. */
  method ReparseElement(parent: ParentNode, el: nat)
    requires parent.Valid() && el in parent.childNodes
    modifies parent
    ensures parent.Valid() && parent.childNodes == old(parent.childNodes)
  {
    var sibling := parent.NextSibling(el);
    ghost var i := IndexIn(parent.childNodes, el);
    ReinsertRestores(parent.childNodes, i);
    parent.RemoveChild(el);
    assert el !in parent.childNodes by {
      assert parent.childNodes == old(parent.childNodes)[..i] + old(parent.childNodes)[i + 1..];
    }
    match sibling
    case Some(next) =>
      parent.InsertBefore(el, next);
    case None =>
      parent.AppendChild(el);
  }

  // ---------------------------------------------------------------------
  // Fragments: `injectMarkup` and `recreateScripts`

  /** `injectMarkup`: falsy text gives `false`; otherwise the children that
      parsing put in a throwaway `div` are moved, first child first, into a
      new fragment. */
  method InjectMarkup(markUp: Option<string>, parsed: map<nat, seq<Child>>, nextId: nat)
    returns (fragment: Fragment?)
    requires Root in parsed && IdsBelow(parsed, nextId)
    ensures fragment == null <==> markUp.None? || markUp.value == ""
    ensures fragment != null ==>
      fresh(fragment) && fragment.Valid() && fragment.lists == parsed && fragment.nextId == nextId
  {
    if markUp.None? || markUp.value == "" {
      return null;
    }
    fragment := new Fragment(parsed, nextId);
    var container := parsed[Root];
    while container != []
      invariant fragment.Valid()
      invariant fragment.lists == parsed[Root := fragment.lists[Root]] && fragment.nextId == nextId
      invariant fragment.lists[Root] + container == parsed[Root]
      decreases |container|
    {
      NextIsNew(parsed, nextId, fragment.lists[Root], container);
      fragment.AppendChild(Root, container[0]);
      container := container[1..];
    }
    assert fragment.lists[Root] == parsed[Root];
    assert fragment.lists == parsed;
  }

  /** The next parsed child to move is not the fragment, was handed out
      before `nextId`, and is not among the children already moved. */
  lemma NextIsNew(parsed: map<nat, seq<Child>>, nextId: nat, done: seq<Child>, container: seq<Child>)
    requires Root in parsed && IdsBelow(parsed, nextId)
    requires container != [] && done + container == parsed[Root]
    ensures Root < container[0].id < nextId
    ensures forall i :: 0 <= i < |done| ==> done[i].id != container[0].id
  {
    assert container[0] == parsed[Root][|done|];
    forall i | 0 <= i < |done|
      ensures done[i].id != container[0].id
    {
      assert done[i] == parsed[Root][i];
    }
  }

  /** A script found by `querySelectorAll('script')`: the key of the list it
      sits in (its `parentElement`, or the fragment itself) and its
      identity. */
  datatype ScriptRef = ScriptRef(parent: nat, id: nat)

  /** One turn of `recreateScripts`' loop: a new script with the old one's
      text is appended to the old one's parent, then the old one is
      removed. */
  function Recreate(lists: map<nat, seq<Child>>, script: ScriptRef, newId: nat): (r: map<nat, seq<Child>>)
    ensures r.Keys == lists.Keys
  {
    if script.parent !in lists then lists
    else
      lists[script.parent := Replaced(lists[script.parent], script.id, newId)]
  }

  /** The whole loop: the scripts in query order, new identities handed out
      from `newId` on. */
  function RecreateAll(lists: map<nat, seq<Child>>, scripts: seq<ScriptRef>, newId: nat): (r: map<nat, seq<Child>>)
    ensures r.Keys == lists.Keys
  {
    if scripts == [] then lists
    else RecreateAll(Recreate(lists, scripts[0], newId), scripts[1..], newId + 1)
  }

  /** One more script rebuilt leaves the same work to do. */
  lemma RecreateAllStep(lists: map<nat, seq<Child>>, scripts: seq<ScriptRef>, i: nat, newId: nat,
                        next: map<nat, seq<Child>>, target: map<nat, seq<Child>>)
    requires i < |scripts| && RecreateAll(lists, scripts[i..], newId) == target
    requires next == Recreate(lists, scripts[i], newId)
    ensures RecreateAll(next, scripts[i + 1..], newId + 1) == target
  {
    assert scripts[i..][1..] == scripts[i + 1..];
  }

  /** Appending the new script and then removing the old one is one
      `Recreate` step. */
  lemma RecreateUpdate(before: map<nat, seq<Child>>, script: ScriptRef, newId: nat,
                       mid: map<nat, seq<Child>>, after: map<nat, seq<Child>>)
    requires script.parent in before
    requires mid == before[script.parent := before[script.parent] + [Script(newId, TextOf(before[script.parent], script.id))]]
    requires after == mid[script.parent := RemoveId(mid[script.parent], script.id)]
    ensures after == Recreate(before, script, newId)
  {
  }

  /** The loop's arrow function: a new script element with the old one's
      text is appended to the old one's parent (or to the fragment), then
      the old one is removed. */
  method RecreateScript(element: Fragment, script: ScriptRef)
    requires element.Valid() && script.parent in element.lists
    modifies element
    ensures element.Valid()
    ensures element.lists == Recreate(old(element.lists), script, old(element.nextId))
    ensures element.nextId == old(element.nextId) + 1
  {
    ghost var before := element.lists;
    var scriptElement := element.CreateScript(TextOf(element.lists[script.parent], script.id));
    var container := script.parent;
    element.AppendChild(container, scriptElement);
    ghost var mid := element.lists;
    element.RemoveChild(container, script.id);
    RecreateUpdate(before, script, old(element.nextId), mid, element.lists);
  }

  /** `recreateScripts`: a falsy fragment returns `false`; otherwise every
      listed script is replaced by a fresh one, and the fragment is
      returned. */
  method RecreateScripts(element: Fragment?, scripts: seq<ScriptRef>) returns (r: Fragment?)
    requires element != null ==> element.Valid()
    requires element != null ==> forall s :: s in scripts ==> s.parent in element.lists
    modifies element
    ensures r == element
    ensures element != null ==> element.Valid()
    ensures element != null ==>
      element.lists == RecreateAll(old(element.lists), scripts, old(element.nextId)) &&
      element.nextId == old(element.nextId) + |scripts|
  {
    if element == null {
      return null;
    }
    RecreateEach(element, scripts);
    return element;
  }

  /** The `forEach` over the scripts `querySelectorAll` found, in order. */
  method RecreateEach(element: Fragment, scripts: seq<ScriptRef>)
    requires element.Valid()
    requires forall s :: s in scripts ==> s.parent in element.lists
    modifies element
    ensures element.Valid()
    ensures element.lists == RecreateAll(old(element.lists), scripts, old(element.nextId))
    ensures element.nextId == old(element.nextId) + |scripts|
  {
    ghost var id0 := element.nextId;
    ghost var target := RecreateAll(element.lists, scripts, id0);
    var i := 0;
    assert scripts[i..] == scripts;
    while i < |scripts|
      invariant i <= |scripts| && element.nextId == id0 + i && element.Valid()
      invariant element.lists.Keys == old(element.lists).Keys
      invariant RecreateAll(element.lists, scripts[i..], element.nextId) == target
    {
      assert scripts[i] in scripts;
      RecreateTurn(element, scripts, i, target);
      i := i + 1;
    }
  }

  /** One turn of the `forEach`: the `i`-th script is rebuilt, and the rest
      of the loop still ends in `target`. */
  method RecreateTurn(element: Fragment, scripts: seq<ScriptRef>, i: nat, ghost target: map<nat, seq<Child>>)
    requires element.Valid() && i < |scripts| && scripts[i].parent in element.lists
    requires RecreateAll(element.lists, scripts[i..], element.nextId) == target
    modifies element
    ensures element.Valid() && element.nextId == old(element.nextId) + 1
    ensures element.lists.Keys == old(element.lists).Keys
    ensures RecreateAll(element.lists, scripts[i + 1..], element.nextId) == target
  {
    ghost var lists, n := element.lists, element.nextId;
    RecreateScript(element, scripts[i]);
    RecreateAllStep(lists, scripts, i, n, element.lists, target);
  }

  /** The list `s` holds a script with identity `id`. */
  predicate HasScript(s: seq<Child>, id: nat)
  {
    exists i :: 0 <= i < |s| && s[i].Script? && s[i].id == id
  }

  /** The parent's list after one replacement. */
  function Replaced(s: seq<Child>, id: nat, newId: nat): seq<Child>
  {
    RemoveId(s + [Script(newId, TextOf(s, id))], id)
  }

  /** One replacement: the old script leaves its place, and a script with
      the same text is appended at the end of the parent. */
  lemma ReplacedShape(s: seq<Child>, id: nat, newId: nat) returns (i: nat)
    requires UniqueIds(s) && HasScript(s, id)
    requires forall k :: 0 <= k < |s| ==> s[k].id < newId
    ensures i < |s| && s[i] == Script(id, TextOf(s, id))
    ensures Replaced(s, id, newId) == s[..i] + s[i + 1..] + [Script(newId, TextOf(s, id))]
  {
    i :| 0 <= i < |s| && s[i].Script? && s[i].id == id;
    FirstWithId(s, id, i);
    RemoveIdAppend(s, Script(newId, TextOf(s, id)), id, i);
  }

  /** One replacement keeps the list's length and its number of scripts,
      and the new script, holding the old one's text, is the last child. */
  lemma RecreateOne(s: seq<Child>, id: nat, newId: nat)
    requires UniqueIds(s) && HasScript(s, id)
    requires forall k :: 0 <= k < |s| ==> s[k].id < newId
    ensures var r := Replaced(s, id, newId);
      |r| == |s| && r[|r| - 1] == Script(newId, TextOf(s, id)) &&
      (exists k :: 0 <= k < |s| && s[k] == Script(id, TextOf(s, id))) &&
      CountScripts(r) == CountScripts(s)
  {
    var i := ReplacedShape(s, id, newId);
    var x := Script(newId, TextOf(s, id));
    assert s == s[..i] + [s[i]] + s[i + 1..];
    CountScriptsAppend(s[..i] + [s[i]], s[i + 1..]);
    CountScriptsAppend(s[..i], [s[i]]);
    CountScriptsAppend(s[..i] + s[i + 1..], [x]);
    CountScriptsAppend(s[..i], s[i + 1..]);
    assert CountScripts([x]) == 1 && CountScripts([s[i]]) == 1;
  }

  /** One replacement keeps the list's identities unique: the new script's
      identity is fresh. */
  lemma RecreateKeepsIdsUnique(s: seq<Child>, id: nat, newId: nat)
    requires UniqueIds(s) && HasScript(s, id)
    requires forall k :: 0 <= k < |s| ==> s[k].id < newId
    ensures var r := Replaced(s, id, newId);
      UniqueIds(r) && forall k :: 0 <= k < |r| ==> r[k].id <= newId
  {
    var i := ReplacedShape(s, id, newId);
    var r := Replaced(s, id, newId);
    assert forall k :: 0 <= k < |r| - 1 ==> r[k] == if k < i then s[k] else s[k + 1];
    assert r[|r| - 1].id == newId;
  }

  /** One replacement keeps the other scripts of the list. */
  lemma RecreateKeepsOthers(s: seq<Child>, id: nat, newId: nat)
    requires UniqueIds(s) && HasScript(s, id)
    requires forall k :: 0 <= k < |s| ==> s[k].id < newId
    ensures forall other :: other != id && HasScript(s, other) ==> HasScript(Replaced(s, id, newId), other)
  {
    var i := ReplacedShape(s, id, newId);
    var r := Replaced(s, id, newId);
    forall other | other != id && HasScript(s, other)
      ensures HasScript(r, other)
    {
      var k :| 0 <= k < |s| && s[k].Script? && s[k].id == other;
      if k < i {
        assert r[k] == s[k];
      } else {
        assert r[k - 1] == s[k];
      }
    }
  }

  /** The scripts to rebuild are distinct and each sits in the list it names;
      no list holds an identity twice or one handed out from `newId` on. */
  ghost predicate Rebuildable(lists: map<nat, seq<Child>>, scripts: seq<ScriptRef>, newId: nat)
  {
    NoDuplicates(scripts) && IdsBelow(lists, newId) &&
    forall r :: r in scripts ==> r.parent in lists && HasScript(lists[r.parent], r.id)
  }

  /** Rebuilding every script leaves each element, and the fragment itself,
      with as many children and as many scripts as before. */
  lemma {:induction false} RecreateAllKeepsShape(lists: map<nat, seq<Child>>, scripts: seq<ScriptRef>, newId: nat)
    requires Rebuildable(lists, scripts, newId)
    ensures var r := RecreateAll(lists, scripts, newId);
      forall k :: k in lists ==> |r[k]| == |lists[k]| && CountScripts(r[k]) == CountScripts(lists[k])
  {
    if scripts != [] {
      RecreateStep(lists, scripts, newId);
      RecreateAllKeepsShape(Recreate(lists, scripts[0], newId), scripts[1..], newId + 1);
    }
  }

  /** In the list with key `p`, the script `id` is gone and `c` is there. */
  ghost predicate ReplacedBy(lists: map<nat, seq<Child>>, p: nat, id: nat, c: Child)
  {
    p in lists && !HasScript(lists[p], id) && c in lists[p]
  }

  /** After the whole loop the `j`-th listed script is gone, and in its
      place its parent holds a new script with the same text and the
      identity handed out for it. */
  lemma {:induction false} RecreateAllReplaces(lists: map<nat, seq<Child>>, scripts: seq<ScriptRef>, newId: nat,
                                               j: nat)
    requires Rebuildable(lists, scripts, newId) && j < |scripts|
    ensures var p, id := scripts[j].parent, scripts[j].id;
      ReplacedBy(RecreateAll(lists, scripts, newId), p, id, Script(newId + j, TextOf(lists[p], id)))
    decreases j, 1
  {
    if j == 0 {
      RecreateFirstReplaced(lists, scripts, newId);
    } else {
      var next := Recreate(lists, scripts[0], newId);
      RebuildableStep(lists, scripts, newId);
      RecreateKeepsText(lists, scripts, newId, j, next);
      ReplacedLater(lists, scripts, newId, j, next);
    }
  }

  /** What the later turns did to the `j`-th script, seen from the whole
      loop. */
  lemma ReplacedLater(lists: map<nat, seq<Child>>, scripts: seq<ScriptRef>, newId: nat, j: nat,
                      next: map<nat, seq<Child>>)
    requires 0 < j < |scripts| && next == Recreate(lists, scripts[0], newId)
    requires scripts[j].parent in lists && scripts[j].parent in next
    requires TextOf(next[scripts[j].parent], scripts[j].id) == TextOf(lists[scripts[j].parent], scripts[j].id)
    requires Rebuildable(next, scripts[1..], newId + 1)
    ensures var p, id := scripts[j].parent, scripts[j].id;
      ReplacedBy(RecreateAll(lists, scripts, newId), p, id, Script(newId + j, TextOf(lists[p], id)))
    decreases j, 0
  {
    RecreateAllReplaces(next, scripts[1..], newId + 1, j - 1);
    assert scripts[1..][j - 1] == scripts[j];
    assert RecreateAll(lists, scripts, newId) == RecreateAll(next, scripts[1..], newId + 1);
    assert newId + 1 + (j - 1) == newId + j;
  }

  /** The first script of the loop ends up replaced: later turns neither
      bring its identity back nor remove the script made for it. */
  lemma RecreateFirstReplaced(lists: map<nat, seq<Child>>, scripts: seq<ScriptRef>, newId: nat)
    requires scripts != [] && Rebuildable(lists, scripts, newId)
    ensures var s0 := scripts[0];
      ReplacedBy(RecreateAll(lists, scripts, newId), s0.parent, s0.id, Script(newId, TextOf(lists[s0.parent], s0.id)))
  {
    var s0 := scripts[0];
    var next := Recreate(lists, s0, newId);
    var x := Script(newId, TextOf(lists[s0.parent], s0.id));
    assert s0 in scripts;
    ReplacedGone(lists, s0, newId);
    LaterIdsDiffer(lists, scripts, newId);
    FirstStaysReplaced(lists, scripts, newId, next, x);
  }

  /** The first turn's replacement, if no later turn undoes it, is what the
      whole loop leaves. */
  lemma FirstStaysReplaced(lists: map<nat, seq<Child>>, scripts: seq<ScriptRef>, newId: nat,
                           next: map<nat, seq<Child>>, x: Child)
    requires scripts != [] && next == Recreate(lists, scripts[0], newId)
    requires ReplacedBy(next, scripts[0].parent, scripts[0].id, x) && scripts[0].id < newId + 1
    requires forall r :: r in scripts[1..] ==> r.parent != scripts[0].parent || r.id != x.id
    ensures ReplacedBy(RecreateAll(lists, scripts, newId), scripts[0].parent, scripts[0].id, x)
  {
    StaysReplaced(next, scripts[1..], newId + 1, scripts[0].parent, scripts[0].id, x);
  }

  /** A replacement that no later turn undoes survives the whole loop. */
  lemma StaysReplaced(lists: map<nat, seq<Child>>, scripts: seq<ScriptRef>, newId: nat, k: nat, id: nat, c: Child)
    requires ReplacedBy(lists, k, id, c) && id < newId
    requires forall r :: r in scripts ==> r.parent != k || r.id != c.id
    ensures ReplacedBy(RecreateAll(lists, scripts, newId), k, id, c)
  {
    RecreateAllKeepsChild(lists, scripts, newId, k, c);
    RecreateAllKeepsAbsent(lists, scripts, newId, k, id);
  }

  /** No later script of the loop carries the identity the first turn hands
      out. */
  lemma LaterIdsDiffer(lists: map<nat, seq<Child>>, scripts: seq<ScriptRef>, newId: nat)
    requires scripts != [] && Rebuildable(lists, scripts, newId)
    ensures forall r :: r in scripts[1..] ==> r.parent != scripts[0].parent || r.id != newId
  {
    forall r | r in scripts[1..]
      ensures r.id < newId
    {
      assert r in scripts;
      var k :| 0 <= k < |lists[r.parent]| && lists[r.parent][k].Script? && lists[r.parent][k].id == r.id;
    }
  }

  /** One replacement takes the script out of its list and leaves the new
      script there. */
  lemma ReplacedGone(lists: map<nat, seq<Child>>, s0: ScriptRef, newId: nat)
    requires s0.parent in lists && HasScript(lists[s0.parent], s0.id) && IdsBelow(lists, newId)
    ensures ReplacedBy(Recreate(lists, s0, newId), s0.parent, s0.id, Script(newId, TextOf(lists[s0.parent], s0.id)))
  {
    var s, id := lists[s0.parent], s0.id;
    var i := ReplacedShape(s, id, newId);
    var r := Replaced(s, id, newId);
    forall m | 0 <= m < |r|
      ensures r[m].id != id
    {
      if m < i {
        assert r[m] == s[m];
      } else if m < |s| - 1 {
        assert r[m] == s[m + 1];
      }
    }
    assert r[|s| - 1] == Script(newId, TextOf(s, id));
  }

  /** Replacing the first script leaves the text of every later one as it
      was. */
  lemma RecreateKeepsText(lists: map<nat, seq<Child>>, scripts: seq<ScriptRef>, newId: nat, j: nat,
                          next: map<nat, seq<Child>>)
    requires 0 < j < |scripts| && Rebuildable(lists, scripts, newId)
    requires next == Recreate(lists, scripts[0], newId)
    ensures scripts[j].parent in next
    ensures TextOf(next[scripts[j].parent], scripts[j].id) == TextOf(lists[scripts[j].parent], scripts[j].id)
  {
    var s0, sj := scripts[0], scripts[j];
    if sj.parent == s0.parent {
      assert scripts[0] in scripts && scripts[j] in scripts;
      assert sj.id != s0.id;
      ReplacedKeepsText(lists[s0.parent], s0.id, newId, sj.id);
    }
  }

  /** One replacement leaves the text of every other script of the list. */
  lemma ReplacedKeepsText(s: seq<Child>, id: nat, newId: nat, other: nat)
    requires UniqueIds(s) && HasScript(s, id) && HasScript(s, other) && other != id
    requires forall k :: 0 <= k < |s| ==> s[k].id < newId
    ensures TextOf(Replaced(s, id, newId), other) == TextOf(s, other)
  {
    var i := ReplacedShape(s, id, newId);
    var r := Replaced(s, id, newId);
    RecreateKeepsIdsUnique(s, id, newId);
    var k :| 0 <= k < |s| && s[k].Script? && s[k].id == other;
    FirstWithId(s, other, k);
    var k' := if k < i then k else k - 1;
    assert r[k'] == s[k];
    FirstWithId(r, other, k');
  }

  /** A child whose identity no later turn removes from its list stays. */
  lemma {:induction false} RecreateAllKeepsChild(lists: map<nat, seq<Child>>, scripts: seq<ScriptRef>, newId: nat,
                                                 k: nat, c: Child)
    requires k in lists && c in lists[k]
    requires forall r :: r in scripts ==> r.parent != k || r.id != c.id
    ensures c in RecreateAll(lists, scripts, newId)[k]
  {
    if scripts != [] {
      var s0 := scripts[0];
      var next := Recreate(lists, s0, newId);
      if s0.parent == k {
        var s := lists[k];
        RemoveIdKeepsOthers(s + [Script(newId, TextOf(s, s0.id))], s0.id);
      }
      forall r | r in scripts[1..]
        ensures r.parent != k || r.id != c.id
      {
        assert r in scripts;
      }
      RecreateAllKeepsChild(next, scripts[1..], newId + 1, k, c);
    }
  }

  /** A script identity absent from a list, and older than every identity
      still to be handed out, stays absent. */
  lemma {:induction false} RecreateAllKeepsAbsent(lists: map<nat, seq<Child>>, scripts: seq<ScriptRef>, newId: nat,
                                                  k: nat, id: nat)
    requires k in lists && !HasScript(lists[k], id) && id < newId
    ensures !HasScript(RecreateAll(lists, scripts, newId)[k], id)
  {
    if scripts != [] {
      var s0 := scripts[0];
      var next: map<nat, seq<Child>> := Recreate(lists, s0, newId);
      if s0.parent == k {
        var s := lists[k];
        var t := s + [Script(newId, TextOf(s, s0.id))];
        RemoveIdSubset(t, s0.id);
        forall m | 0 <= m < |next[k]|
          ensures !(next[k][m].Script? && next[k][m].id == id)
        {
          assert next[k][m] in t;
          var n :| 0 <= n < |t| && t[n] == next[k][m];
          if n < |s| {
            assert t[n] == s[n];
          }
        }
      }
      RecreateAllKeepsAbsent(next, scripts[1..], newId + 1, k, id);
    }
  }

  /** One turn of the loop keeps every list's shape and leaves the remaining
      scripts rebuildable. */
  lemma RecreateStep(lists: map<nat, seq<Child>>, scripts: seq<ScriptRef>, newId: nat)
    requires scripts != [] && Rebuildable(lists, scripts, newId)
    ensures var next := Recreate(lists, scripts[0], newId);
      Rebuildable(next, scripts[1..], newId + 1) &&
      forall k :: k in lists ==> |next[k]| == |lists[k]| && CountScripts(next[k]) == CountScripts(lists[k])
  {
    var s0 := scripts[0];
    RecreateOne(lists[s0.parent], s0.id, newId);
    RebuildableStep(lists, scripts, newId);
  }

  /** One turn leaves the remaining scripts rebuildable. */
  lemma RebuildableStep(lists: map<nat, seq<Child>>, scripts: seq<ScriptRef>, newId: nat)
    requires scripts != [] && Rebuildable(lists, scripts, newId)
    ensures Rebuildable(Recreate(lists, scripts[0], newId), scripts[1..], newId + 1)
  {
    RecreateStepLists(lists, scripts[0], newId);
    RecreateStepScripts(lists, scripts, newId);
  }

  /** One turn keeps every list's identities unique, not `Root`, and below
      the next identity to hand out. */
  lemma RecreateStepLists(lists: map<nat, seq<Child>>, s0: ScriptRef, newId: nat)
    requires s0.parent in lists && HasScript(lists[s0.parent], s0.id)
    requires IdsBelow(lists, newId)
    ensures IdsBelow(Recreate(lists, s0, newId), newId + 1)
  {
    var k0 := s0.parent;
    var after: map<nat, seq<Child>> := Recreate(lists, s0, newId);
    RecreateKeepsIdsUnique(lists[k0], s0.id, newId);
    forall k: nat, i: int | k in after && 0 <= i < |after[k]|
      ensures Root < after[k][i].id < newId + 1
    {
      if k != k0 {
        assert after[k] == lists[k];
      } else {
        var s := lists[k0];
        var j := ReplacedShape(s, s0.id, newId);
        if i < j {
          assert after[k][i] == s[i];
        } else if i < |s| - 1 {
          assert after[k][i] == s[i + 1];
        }
      }
    }
  }

  /** After one turn the remaining scripts are still distinct and still in
      the lists they name. */
  lemma RecreateStepScripts(lists: map<nat, seq<Child>>, scripts: seq<ScriptRef>, newId: nat)
    requires scripts != [] && Rebuildable(lists, scripts, newId)
    ensures var next := Recreate(lists, scripts[0], newId);
      NoDuplicates(scripts[1..]) &&
      forall r :: r in scripts[1..] ==> r.parent in next && HasScript(next[r.parent], r.id)
  {
    var s0 := scripts[0];
    var next := Recreate(lists, s0, newId);
    RecreateKeepsOthers(lists[s0.parent], s0.id, newId);
    var rest := scripts[1..];
    forall r | r in rest
      ensures r.parent in next && HasScript(next[r.parent], r.id)
    {
      var j :| 0 <= j < |rest| && rest[j] == r;
      assert scripts[j + 1] == r;
    }
    forall i, j | 0 <= i < j < |rest|
      ensures rest[i] != rest[j]
    {
      assert rest[i] == scripts[i + 1] && rest[j] == scripts[j + 1];
    }
  }

  /** `RemoveId` takes out the first child with the identity, and `TextOf`
      reads that child. */
  lemma {:induction false} FirstWithId(s: seq<Child>, id: nat, i: nat)
    requires i < |s| && s[i].id == id && forall k :: 0 <= k < i ==> s[k].id != id
    ensures RemoveId(s, id) == s[..i] + s[i + 1..]
    ensures TextOf(s, id) == if s[i].Script? then s[i].text else ""
  {
    if i == 0 {
      assert s[..0] + s[1..] == s[1..];
    } else {
      var t := s[1..];
      assert s[0].id != id;
      assert RemoveId(s, id) == [s[0]] + RemoveId(t, id);
      assert TextOf(s, id) == TextOf(t, id);
      assert t[i - 1] == s[i];
      forall k | 0 <= k < i - 1
        ensures t[k].id != id
      {
        assert t[k] == s[k + 1];
      }
      FirstWithId(t, id, i - 1);
      assert [s[0]] + t[..i - 1] == s[..i];
      assert t[i..] == s[i + 1..];
    }
  }

  /** Removing a child that is present commutes with appending another. */
  lemma {:induction false} RemoveIdAppend(s: seq<Child>, x: Child, id: nat, i: nat)
    requires i < |s| && s[i].id == id && x.id != id
    ensures RemoveId(s + [x], id) == RemoveId(s, id) + [x]
  {
    assert (s + [x])[0] == s[0];
    assert (s + [x])[1..] == s[1..] + [x];
    if s[0].id != id {
      RemoveIdAppend(s[1..], x, id, i - 1);
    }
  }

  lemma {:induction false} CountScriptsAppend(a: seq<Child>, b: seq<Child>)
    ensures CountScripts(a + b) == CountScripts(a) + CountScripts(b)
  {
    if a != [] {
      assert (a + b)[0] == a[0];
      assert (a + b)[1..] == a[1..] + b;
      CountScriptsAppend(a[1..], b);
    } else {
      assert a + b == b;
    }
  }
}
