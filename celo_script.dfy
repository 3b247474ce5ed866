/** celo.js, the first loader: a page-lifetime list of loaded tags, the
    per-record dispatch of the mutation observer's callback, and the pipeline
    that appends a fetched component's markup and a fresh script element to
    the `_celo` container. */
module CeloScript {
  import opened Base
  import opened Text
  import opened Markup
  import opened Dom

  /** The fixed path that celo.js fetches components from. */
  const ComponentsPath: string := "/components"

  /** The URL of every component in `tags`, in order. */
  function Urls(tags: seq<string>): (r: seq<string>)
    ensures |r| == |tags|
    ensures forall i :: 0 <= i < |tags| ==> r[i] == ComponentUrl(ComponentsPath, tags[i])
  {
    seq(|tags|, i requires 0 <= i < |tags| => ComponentUrl(ComponentsPath, tags[i]))
  }

  lemma UrlsAppend(tags: seq<string>, t: string)
    ensures Urls(tags + [t]) == Urls(tags) + [ComponentUrl(ComponentsPath, t)]
  {
  }

  /** A list of distinct tags gives a list of distinct URLs: no component is
      requested twice. */
  lemma UrlsNoDuplicates(tags: seq<string>)
    requires NoDuplicates(tags)
    ensures NoDuplicates(Urls(tags))
  {
    forall i, j | 0 <= i < j < |tags|
      ensures Urls(tags)[i] != Urls(tags)[j]
    {
      ComponentUrlInjective(ComponentsPath, tags[i], tags[j]);
    }
  }

  /** `isNew`'s return value: `false`, or the list's new length (what
      `Array.prototype.push` returns). */
  datatype IsNewValue = False | Length(n: nat)
  {
    predicate Truthy() { Length? && n != 0 }
  }

  /** The lowercase tag name that a mutation record's first added node
      offers: present only for an `HTMLElement` with a non-empty `tagName`. */
  function Observed(record: seq<Node>): (r: Option<string>)
    ensures r.Some? ==> IsLower(r.value)
  {
    match FirstAdded(record)
    case Some(Element(tag, true, _)) =>
      LowerIsLower(tag);
      if |tag| > 0 then Some(Lower(tag)) else None
    case _ => None
  }

  /** A record whose first added node asks for a fetch when its tag is not
      yet loaded: a tag with a hyphen (and so never `body`). */
  predicate IsCandidate(record: seq<Node>)
  {
    Observed(record).Some? && Observed(record).value != "body" && '-' in Observed(record).value
  }

  /** `loadedComponents` after the callback has handled one record. */
  function Offer(loaded: seq<string>, record: seq<Node>): seq<string>
  {
    if IsCandidate(record) && Observed(record).value !in loaded
    then loaded + [Observed(record).value]
    else loaded
  }

  /** `loadedComponents` after the callback has handled `records`. */
  function Discover(loaded: seq<string>, records: seq<seq<Node>>): seq<string>
  {
    if records == [] then loaded
    else Offer(Discover(loaded, records[..|records| - 1]), records[|records| - 1])
  }

  /** Containers a record asks for: one when its node is the `body`. */
  function BodyCount(record: seq<Node>): nat
  {
    if Observed(record) == Some("body") then 1 else 0
  }

  /** Number of records whose first added node is the `body` element. */
  function BodyRecords(records: seq<seq<Node>>): nat
  {
    if records == [] then 0
    else
      BodyRecords(records[..|records| - 1]) + BodyCount(records[|records| - 1])
  }

  /** The tags that `records` offer for fetching. */
  ghost function Candidates(records: seq<seq<Node>>): set<string>
  {
    if records == [] then {}
    else
      var last := records[|records| - 1];
      Candidates(records[..|records| - 1]) +
      if IsCandidate(last) then {Observed(last).value} else {}
  }

  /** A record offers its tag exactly when it is a candidate. */
  lemma {:induction false} CandidatesAreOffered(records: seq<seq<Node>>, t: string)
    ensures t in Candidates(records) <==>
      exists i :: 0 <= i < |records| && IsCandidate(records[i]) && Observed(records[i]).value == t
  {
    if records != [] {
      var front, last := records[..|records| - 1], records[|records| - 1];
      CandidatesAreOffered(front, t);
      if t in Candidates(front) {
        var i :| 0 <= i < |front| && IsCandidate(front[i]) && Observed(front[i]).value == t;
        assert records[i] == front[i];
      } else if t in Candidates(records) {
        assert records[|records| - 1] == last;
      } else {
        forall i | 0 <= i < |front|
          ensures !(IsCandidate(records[i]) && Observed(records[i]).value == t)
        {
          assert records[i] == front[i];
        }
      }
    }
  }

  /** The callback only appends, appends lowercase tags only, and never
      appends a tag that is already there. */
  lemma {:induction false} DiscoverKeepsList(loaded: seq<string>, records: seq<seq<Node>>)
    requires NoDuplicates(loaded) && forall t :: t in loaded ==> IsLower(t)
    ensures var r := Discover(loaded, records);
      |loaded| <= |r| && r[..|loaded|] == loaded &&
      NoDuplicates(r) && forall t :: t in r ==> IsLower(t)
  {
    if records != [] {
      DiscoverKeepsList(loaded, records[..|records| - 1]);
    }
  }

  /** A tag ends up in `loadedComponents` exactly when it was there before or
      some record offered it: every new hyphenated tag is loaded, and nothing
      else is (in particular never `body` and never a tag without a hyphen). */
  lemma {:induction false} DiscoverMembership(loaded: seq<string>, records: seq<seq<Node>>, t: string)
    ensures t in Discover(loaded, records) <==> t in loaded || t in Candidates(records)
  {
    if records != [] {
      DiscoverMembership(loaded, records[..|records| - 1], t);
    }
  }

  /** The state celo.js keeps for the page's lifetime. */
  class Loader {
    /** The tags already seen (celo.js `loadedComponents`). */
    var loadedComponents: seq<string>
    /** How many `div#_celo` containers the body holds. */
    var containers: nat
    /** The children of the first container, the one `#_celo` finds. */
    var hosted: seq<Item>
    /** The component URLs whose fetch has been started, in order. */
    var requested: seq<string>

    ghost predicate TrackerValid()
      reads this
    {
      NoDuplicates(loadedComponents) && forall t :: t in loadedComponents ==> IsLower(t)
    }

    /** Every loaded tag has had exactly one fetch started for it, in the
        same order, and an absent container holds nothing. */
    ghost predicate Valid()
      reads this
    {
      TrackerValid() && requested == Urls(loadedComponents) && (containers == 0 ==> hosted == [])
    }

    constructor ()
      ensures Valid()
      ensures loadedComponents == [] && containers == 0 && hosted == [] && requested == []
    {
      loadedComponents, containers, hosted, requested := [], 0, [], [];
    }

    /** `isNew`: checks and records in one call. */
    method IsNew(tagName: string) returns (r: IsNewValue)
      requires TrackerValid()
      modifies this`loadedComponents
      ensures TrackerValid()
      ensures r.Truthy() <==> Lower(tagName) !in old(loadedComponents)
      ensures !r.Truthy() ==> r == False && loadedComponents == old(loadedComponents)
      ensures r.Truthy() ==>
        loadedComponents == old(loadedComponents) + [Lower(tagName)] &&
        r == Length(|loadedComponents|)
      ensures Lower(tagName) in loadedComponents
    {
      var t := Lower(tagName);
      LowerIsLower(tagName);
      if t in loadedComponents {
        r := False;
      } else {
        loadedComponents := loadedComponents + [t];
        r := Length(|loadedComponents|);
      }
    }

    /** `setUpContainer`: appends a new `div#_celo` to the body every time it
        is called. */
    method SetUpContainer()
      modifies this`containers
      ensures containers == old(containers) + 1
    {
      containers := containers + 1;
    }

    /** The callback's arrow function on one record: only its first added
        node is looked at; `body` sets up a container, a new hyphenated tag
        is recorded and its fetch started. */
    method ParseRecord(record: seq<Node>)
      requires Valid()
      modifies this
      ensures Valid() && hosted == old(hosted)
      ensures loadedComponents == Offer(old(loadedComponents), record)
      ensures containers == old(containers) + BodyCount(record)
    {
      var el := FirstAdded(record);
      if el.Some? && el.value.Element? && el.value.isHtml && |el.value.tagName| > 0 {
        var tagName := Lower(el.value.tagName);
        assert Observed(record) == Some(tagName);
        if tagName == "body" {
          SetUpContainer();
        } else if '-' in tagName {
          ghost var before := loadedComponents;
          var isNew := IsNew(tagName);
          LowerIsLower(el.value.tagName);
          if isNew.Truthy() {
            UrlsAppend(before, tagName);
            requested := requested + [ComponentUrl(ComponentsPath, tagName)];
          }
        }
      } else {
        assert Observed(record).None?;
      }
    }

    /** `parseElements`: each record in order. */
    method ParseElements(records: seq<seq<Node>>)
      requires Valid()
      modifies this
      ensures Valid()
      ensures loadedComponents == Discover(old(loadedComponents), records)
      ensures containers == old(containers) + BodyRecords(records)
      ensures hosted == old(hosted)
    {
      var i := 0;
      while i < |records|
        invariant i <= |records|
        invariant Valid() && hosted == old(hosted)
        invariant loadedComponents == Discover(old(loadedComponents), records[..i])
        invariant containers == old(containers) + BodyRecords(records[..i])
      {
        assert records[..i + 1][..i] == records[..i];
        ParseRecord(records[i]);
        i := i + 1;
      }
      assert records[..i] == records;
    }

    /** `addMarkUp`: appends each element to `#_celo`; with no container the
        first `append` throws and nothing is added. */
    method AddMarkUp(elementList: seq<Item>) returns (done: bool)
      requires Valid()
      modifies this`hosted
      ensures Valid()
      ensures done <==> containers > 0
      ensures hosted == if done then old(hosted) + elementList else old(hosted)
    {
      if containers == 0 {
        return false;
      }
      hosted := hosted + elementList;
      return true;
    }

    /** The chain `getMarkUp` → `splitMarkup` → `recreateElements` →
        `addMarkUp` once the fetch has settled.  A response that is not `ok`
        makes `getMarkUp` resolve to `undefined`, and `splitMarkup` then
        throws; a rejected fetch rejects the chain; either way nothing is
        appended. */
    method Render(response: Response) returns (appended: bool)
      requires Valid()
      modifies this`hosted
      ensures Valid()
      ensures appended <==>
        containers > 0 && response.Ok? && SplitMarkup(Some(response.body)).Success?
      ensures appended ==>
        var split := SplitMarkup(Some(response.body)).value;
        hosted == old(hosted) + [ParsedMarkup(split.markUp), FreshScript(split.script)]
      ensures !appended ==> hosted == old(hosted)
    {
      if response.NetworkError? {
        return false;
      }
      var markUp := if response.Ok? then Some(response.body) else None;
      var split := SplitMarkup(markUp);
      if split.Failure? {
        return false;
      }
      var elementList := [ParsedMarkup(split.value.markUp), FreshScript(split.value.script)];
      appended := AddMarkUp(elementList);
    }
  }

  /** Every started fetch is for a different component. */
  lemma RequestedOnce(loader: Loader)
    requires loader.Valid()
    ensures NoDuplicates(loader.requested)
  {
    UrlsNoDuplicates(loader.loadedComponents);
  }
}
