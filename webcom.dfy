/** webcom.js, the cache-backed loader: tags are deduplicated by their raw
    `tagName`, each new component's markup is looked up in `localStorage`
    under a key made from its tag, its fetch always runs and stores a good
    response, and the cached markup is split and appended to the `_webcom`
    container. */
module Webcom {
  import opened Base
  import opened Text
  import opened Markup
  import opened Dom

  const ComponentsPath: string := "/components"
  const KeyPrefix: string := "w-c-"

  /** `getKey`: the storage key of an element's markup. */
  function GetKey(tagName: string): (k: string)
    ensures |k| == |KeyPrefix| + |tagName| && k[..|KeyPrefix|] == KeyPrefix
  {
    KeyPrefix + Lower(tagName)
  }

  /** Two elements share a storage key exactly when their tag names agree up
      to case: the key depends on the tag name alone, and tells it back. */
  lemma GetKeyIdentifiesTag(a: string, b: string)
    ensures GetKey(a) == GetKey(b) <==> Lower(a) == Lower(b)
  {
    if GetKey(a) == GetKey(b) {
      assert Lower(a) == GetKey(a)[|KeyPrefix|..];
      assert Lower(b) == GetKey(b)[|KeyPrefix|..];
    }
  }

  /** What `parseWecom`'s promise resolves to first: the stored markup when
      `localStorage.getItem(key)` is truthy (present and not empty), else
      `fetchComponentFromServer`'s result, which is always `undefined`. */
  function CachedMarkup(storage: map<string, string>, tagName: string): Option<string>
  {
    var key := GetKey(tagName);
    if key in storage && storage[key] != "" then Some(storage[key]) else None
  }

  /** The storage once `fetchComponentFromServer`'s chain has settled: a
      good response is saved under the element's key; a bad one throws
      before `saveComponent`, and a rejected fetch never reaches it. */
  function AfterFetch(storage: map<string, string>, tagName: string, response: Response): map<string, string>
  {
    if response.Ok? then storage[GetKey(tagName) := response.body] else storage
  }

  /** The container's children once `parseWecom`'s chain has settled: the
      parsed markup and a fresh script are appended when the markup splits
      and `#_webcom` exists; otherwise the chain throws and `.catch` logs. */
  function AfterRender(hosted: seq<Item>, containers: nat, markUp: Option<string>): seq<Item>
  {
    match SplitMarkup(markUp)
    case Success(texts) =>
      if containers > 0 then hosted + [ParsedMarkup(texts.markUp), FreshScript(texts.script)]
      else hosted
    case Failure(_) => hosted
  }

  /** The cache is consulted first: on a hit the value stored under the
      element's key is what gets split and appended. */
  lemma {:induction false} CacheHitRendersStoredValue(storage: map<string, string>, tagName: string,
                                                      hosted: seq<Item>, containers: nat)
    requires GetKey(tagName) in storage && containers > 0
    requires SplitMarkup(Some(storage[GetKey(tagName)])).Success?
    ensures var texts := SplitMarkup(Some(storage[GetKey(tagName)])).value;
      AfterRender(hosted, containers, CachedMarkup(storage, tagName)) ==
        hosted + [ParsedMarkup(texts.markUp), FreshScript(texts.script)]
  {
  }

  /** On a cache miss the promise resolves to `undefined`, `splitMarkup`
      throws, and nothing is appended, whatever the fetch later stores. */
  lemma CacheMissRendersNothing(storage: map<string, string>, tagName: string,
                                hosted: seq<Item>, containers: nat)
    requires CachedMarkup(storage, tagName).None?
    ensures AfterRender(hosted, containers, CachedMarkup(storage, tagName)) == hosted
  {
  }

  /** A snapshot of webcom.js's state. */
  datatype State = State(loaded: seq<string>, storage: map<string, string>,
                         containers: nat, hosted: seq<Item>)

  /** One record of the observer's callback (`parseElements`): a hyphenated
      tag name not yet in `loaded` is pushed and `parseWecom` runs for it;
      otherwise a `body` element creates a container. */
  function Step(st: State, record: seq<Node>, network: string -> Response): State
  {
    match FirstAdded(record)
    case Some(Element(tag, true, _)) =>
      if |tag| == 0 then st
      else if '-' in tag && tag !in st.loaded then
        var response := network(ComponentUrl(ComponentsPath, Lower(tag)));
        st.(loaded := st.loaded + [tag],
            storage := AfterFetch(st.storage, tag, response),
            hosted := AfterRender(st.hosted, st.containers, CachedMarkup(st.storage, tag)))
      else if Lower(tag) == "body" then st.(containers := st.containers + 1)
      else st
    case _ => st
  }

  function Run(st: State, records: seq<seq<Node>>, network: string -> Response): State
  {
    if records == [] then st
    else Step(Run(st, records[..|records| - 1], network), records[|records| - 1], network)
  }

  /** `loaded` only grows, by tags it did not hold: `parseWecom` runs at
      most once per tag name (compared as given, without lowering). */
  lemma {:induction false} RunKeepsLoadedDistinct(st: State, records: seq<seq<Node>>, network: string -> Response)
    requires NoDuplicates(st.loaded)
    ensures var r := Run(st, records, network).loaded;
      |st.loaded| <= |r| && r[..|st.loaded|] == st.loaded && NoDuplicates(r)
  {
    if records != [] {
      RunKeepsLoadedDistinct(st, records[..|records| - 1], network);
    }
  }

  /** A tag already in `loaded` starts nothing: no fetch, no store, no
      append, and (having a hyphen) no container either. */
  lemma StepOnLoadedTag(st: State, record: seq<Node>, network: string -> Response)
    requires FirstAdded(record).Some? && FirstAdded(record).value.Element?
    requires FirstAdded(record).value.tagName in st.loaded
    requires '-' in FirstAdded(record).value.tagName
    ensures Step(st, record, network) == st
  {
    var tag := FirstAdded(record).value.tagName;
    HyphenSurvivesLowering(tag);
    assert Lower(tag) != "body";
  }

  /** A new hyphenated tag never creates a container: the `body` test is
      only reached in the `else` branch. */
  lemma StepOnNewTag(st: State, record: seq<Node>, network: string -> Response)
    requires FirstAdded(record).Some? && FirstAdded(record).value.Element?
    requires FirstAdded(record).value.isHtml && FirstAdded(record).value.tagName !in st.loaded
    requires '-' in FirstAdded(record).value.tagName
    ensures Step(st, record, network).containers == st.containers
    ensures Step(st, record, network).loaded == st.loaded + [FirstAdded(record).value.tagName]
  {
  }

  /** Storage changes only under the keys of tags loaded during the run: a
      key that none of them maps to keeps its value, or stays absent. */
  lemma {:induction false} RunStorageFrame(st: State, records: seq<seq<Node>>, network: string -> Response, k: string)
    requires NoDuplicates(st.loaded)
    requires forall t :: t in Run(st, records, network).loaded && t !in st.loaded ==> GetKey(t) != k
    ensures var r := Run(st, records, network).storage;
      (k in r <==> k in st.storage) && (k in r ==> r[k] == st.storage[k])
  {
    if records != [] {
      var front := records[..|records| - 1];
      var mid := Run(st, front, network);
      var last := records[|records| - 1];
      RunKeepsLoadedDistinct(st, front, network);
      assert Run(st, records, network) == Step(mid, last, network);
      assert forall t :: t in mid.loaded ==> t in Step(mid, last, network).loaded;
      RunStorageFrame(st, front, network, k);
      if FirstAdded(last).Some? && FirstAdded(last).value.Element? {
        var tag := FirstAdded(last).value.tagName;
        if tag !in mid.loaded {
          assert tag !in st.loaded;
        }
      }
    }
  }

  /** webcom.js's page-lifetime state. */
  class Loader {
    /** The raw tag names already handled (webcom.js `loaded`). */
    var loaded: seq<string>
    /** `localStorage`, as a map from key to stored text. */
    var storage: map<string, string>
    /** How many `div#_webcom` containers the body holds. */
    var containers: nat
    /** The children of the first container, the one `#_webcom` finds. */
    var hosted: seq<Item>

    function Snapshot(): State
      reads this
    {
      State(loaded, storage, containers, hosted)
    }

    constructor (storage: map<string, string>)
      ensures loaded == [] && this.storage == storage && containers == 0 && hosted == []
    {
      loaded, this.storage, containers, hosted := [], storage, 0, [];
    }

    /** `saveComponent`: `localStorage.setItem(key, markUp)`. */
    method SaveComponent(key: string, markUp: string)
      modifies this`storage
      ensures storage == old(storage)[key := markUp]
    {
      storage := storage[key := markUp];
    }

    /** `fetchComponentFromServer`: fetches the lowercase tag's file and, on
        an `ok` response, saves its text under the element's key.  It
        returns `undefined` whatever happens. */
    method FetchComponentFromServer(tagName: string, response: Response)
      modifies this`storage
      ensures storage == AfterFetch(old(storage), tagName, response)
    {
      if response.Ok? {
        SaveComponent(GetKey(tagName), response.body);
      }
    }

    /** `createContainer`: appends a new `div#_webcom` to the body. */
    method CreateContainer()
      modifies this`containers
      ensures containers == old(containers) + 1
    {
      containers := containers + 1;
    }

    /** `parseWecom`: reads the cache, always starts the fetch, and renders
        the cached markup (a miss renders nothing). */
    method ParseWecom(tagName: string, response: Response)
      modifies this`storage, this`hosted
      ensures storage == AfterFetch(old(storage), tagName, response)
      ensures hosted == AfterRender(old(hosted), containers, CachedMarkup(old(storage), tagName))
    {
      var key := GetKey(tagName);
      var markUp: Option<string> := None;
      if key in storage && storage[key] != "" {
        markUp := Some(storage[key]);
      }
      FetchComponentFromServer(tagName, response);
      var texts := SplitMarkup(markUp);
      if texts.Success? && containers > 0 {
        hosted := hosted + [ParsedMarkup(texts.value.markUp), FreshScript(texts.value.script)];
      }
    }

    /** The callback's arrow function on one record. */
    method ParseRecord(record: seq<Node>, network: string -> Response)
      modifies this
      ensures Snapshot() == Step(old(Snapshot()), record, network)
    {
      var el := FirstAdded(record);
      if el.Some? && el.value.Element? && el.value.isHtml && |el.value.tagName| > 0 {
        var tagName := el.value.tagName;
        if '-' in tagName && tagName !in loaded {
          loaded := loaded + [tagName];
          ParseWecom(tagName, network(ComponentUrl(ComponentsPath, Lower(tagName))));
        } else if Lower(tagName) == "body" {
          CreateContainer();
        }
      }
    }

    /** `parseElements`, with every component's chain run to completion
        before the next record; `network` answers each component URL. */
    method ParseElements(records: seq<seq<Node>>, network: string -> Response)
      modifies this
      ensures Snapshot() == Run(old(Snapshot()), records, network)
    {
      var i := 0;
      while i < |records|
        invariant i <= |records|
        invariant Snapshot() == Run(old(Snapshot()), records[..i], network)
      {
        assert records[..i + 1][..i] == records[..i];
        ParseRecord(records[i], network);
        i := i + 1;
      }
      assert records[..i] == records;
    }
  }
}
