/** The markup splitter shared by celo.js and webcom.js (the two `splitMarkup`
    functions are the same code).  It runs the regular expression
    `/<script[\S\s]*?>([\S\s]*?)<\/script>/i` over the fetched text, keeps
    capture group 1 as the script and removes the whole match from the text
    with `String.prototype.replace`. */
module Markup {
  import opened Base
  import opened Text

  const ScriptOpen: string := "<script"
  const ScriptClose: string := "</script>"

  /** One way the regular expression can match `s`: `<script` (any case) at
      `p`, the `>` that ends the opening tag at `g`, and `</script>` (any
      case) at `c`.  `[\S\s]` is any character, so nothing else constrains
      the two lazy gaps. */
  ghost predicate IsMatch(s: string, p: int, g: int, c: int)
  {
    OccursAt(s, p, ScriptOpen, true) && p + |ScriptOpen| <= g < c &&
    OccursAt(s, g, ">", false) && OccursAt(s, c, ScriptClose, true)
  }

  /** (p, g, c) comes no later than (p', g', c') in the order a backtracking
      matcher tries them: leftmost start, then the shortest lazy gaps. */
  ghost predicate TriedFirst(p: int, g: int, c: int, p': int, g': int, c': int)
  {
    p < p' || (p == p' && (g < g' || (g == g' && c <= c')))
  }

  /** The match that `String.prototype.match` reports. */
  ghost predicate IsReportedMatch(s: string, p: int, g: int, c: int)
  {
    IsMatch(s, p, g, c) &&
    forall p', g', c' :: IsMatch(s, p', g', c') ==> TriedFirst(p, g, c, p', g', c')
  }

  /** Positions of a match: `start` of `<script`, `tagEnd` of the `>` that
      closes the opening tag, `bodyEnd` of `</script>`. */
  datatype Match = Match(start: nat, tagEnd: nat, bodyEnd: nat)
  {
    /** One past the last character of the whole match (`matches[0]`). */
    function End(): nat { bodyEnd + |ScriptClose| }
  }

  /** The regular expression's search.  Only the first `<script` needs to be
      tried: if no match starts there, none starts anywhere. */
  function FindMatch(s: string): (r: Option<Match>)
    ensures r.Some? ==> IsReportedMatch(s, r.value.start, r.value.tagEnd, r.value.bodyEnd)
    ensures r.Some? ==>
      r.value.start + |ScriptOpen| <= r.value.tagEnd < r.value.bodyEnd && r.value.End() <= |s|
    ensures r.None? ==> forall p, g, c :: !IsMatch(s, p, g, c)
  {
    match IndexOf(s, ScriptOpen, 0, true)
    case None => None
    case Some(p) =>
      match IndexOf(s, ">", p + |ScriptOpen|, false)
      case None => None
      case Some(g) =>
        match IndexOf(s, ScriptClose, g + 1, true)
        case None => None
        case Some(c) => Some(Match(p, g, c))
  }

  /** `s.replace(pat, "")` with a string pattern: the first exact
      (case-sensitive) occurrence of `pat` is cut out; without one, `s` is
      returned as it is. */
  function RemoveFirst(s: string, pat: string): (r: string)
    ensures IndexOf(s, pat, 0, false).None? ==> r == s
    ensures IndexOf(s, pat, 0, false).Some? ==> |r| == |s| - |pat|
    ensures forall i :: OccursAt(s, i, pat, false) && (forall j :: 0 <= j < i ==> !OccursAt(s, j, pat, false)) ==>
      r == s[..i] + s[i + |pat|..]
  {
    match IndexOf(s, pat, 0, false)
    case None => s
    case Some(i) => s[..i] + s[i + |pat|..]
  }

  /** An occurrence of `pat` inside the copy of `w` at `q` reappears at the
      same offset inside any other exact copy of `w`. */
  lemma OccursInCopy(s: string, w: string, q: nat, i: nat, d: nat, pat: string, ignoreCase: bool)
    requires OccursAt(s, q, w, false) && OccursAt(s, i, w, false)
    requires d + |pat| <= |w| && OccursAt(s, q + d, pat, ignoreCase)
    ensures OccursAt(s, i + d, pat, ignoreCase)
  {
    forall j | 0 <= j < |pat|
      ensures SameChar(s[i + d + j], pat[j], ignoreCase)
    {
      assert s[i + (d + j)] == w[d + j] == s[q + (d + j)];
    }
  }

  /** The text of the reported match occurs nowhere before the match itself:
      an earlier exact copy would be an earlier match.  So `replace` cuts the
      text at the very place the regular expression matched. */
  lemma MatchedTextFirstOccurs(s: string, m: Match)
    requires IsReportedMatch(s, m.start, m.tagEnd, m.bodyEnd)
    ensures IndexOf(s, s[m.start..m.End()], 0, false) == Some(m.start)
  {
    var w := s[m.start..m.End()];
    assert OccursAt(s, m.start, w, false);
    var i := IndexOf(s, w, 0, false).value;
    if i < m.start {
      CopyIsMatch(s, m, i);
      assert false;
    }
  }

  /** An exact copy of a match's text is a match too. */
  lemma CopyIsMatch(s: string, m: Match, i: nat)
    requires IsMatch(s, m.start, m.tagEnd, m.bodyEnd)
    requires OccursAt(s, i, s[m.start..m.End()], false)
    ensures IsMatch(s, i, i + (m.tagEnd - m.start), i + (m.bodyEnd - m.start))
  {
    PieceInCopy(s, m, i, m.start, ScriptOpen, true);
    PieceInCopy(s, m, i, m.tagEnd, ">", false);
    PieceInCopy(s, m, i, m.bodyEnd, ScriptClose, true);
  }

  /** A piece of a match's text at `q` reappears at the same offset in an
      exact copy of that text. */
  lemma PieceInCopy(s: string, m: Match, i: nat, q: nat, pat: string, ignoreCase: bool)
    requires m.start <= q && q + |pat| <= m.End() <= |s|
    requires OccursAt(s, i, s[m.start..m.End()], false) && OccursAt(s, q, pat, ignoreCase)
    ensures OccursAt(s, i + (q - m.start), pat, ignoreCase)
  {
    var w := s[m.start..m.End()];
    assert OccursAt(s, m.start, w, false);
    OccursInCopy(s, w, m.start, i, q - m.start, pat, ignoreCase);
  }

  /** What `splitMarkup` returns: the text without the script block, and the
      script's body. */
  datatype Split = Split(markUp: string, script: string)

  /** How `splitMarkup` throws: `undefined.match(...)` when the fetch gave no
      text, and `null[0]` when the text has no script block. */
  datatype SplitError = UndefinedMarkup | NoScriptBlock

  function SplitMarkup(markUp: Option<string>): (r: Result<Split, SplitError>)
    ensures markUp.None? ==> r == Failure(UndefinedMarkup)
    ensures markUp.Some? ==> r != Failure(UndefinedMarkup)
    ensures markUp.Some? ==>
      (r == Failure(NoScriptBlock) <==> forall p, g, c :: !IsMatch(markUp.value, p, g, c))
    ensures r.Success? ==>
      markUp.Some? && FindMatch(markUp.value).Some? &&
      var s, m := markUp.value, FindMatch(markUp.value).value;
      m.start < m.tagEnd < m.bodyEnd && m.End() <= |s| &&
      r.value.script == s[m.tagEnd + 1..m.bodyEnd] &&
      r.value.markUp == s[..m.start] + s[m.End()..]
  {
    match markUp
    case None => Failure(UndefinedMarkup)
    case Some(s) =>
      match FindMatch(s)
      case None => Failure(NoScriptBlock)
      case Some(m) => Success(Cut(s, m))
  }

  /** `replace(matches[0], "")` and `matches[1]` for the reported match:
      the replacement cuts the text exactly where the match is. */
  function Cut(s: string, m: Match): (sp: Split)
    requires IsReportedMatch(s, m.start, m.tagEnd, m.bodyEnd)
    ensures sp.markUp == s[..m.start] + s[m.End()..]
    ensures sp.script == s[m.tagEnd + 1..m.bodyEnd]
  {
    MatchedTextFirstOccurs(s, m);
    Split(RemoveFirst(s, s[m.start..m.End()]), s[m.tagEnd + 1..m.bodyEnd])
  }

  /** Putting the block back at `m.start`: markup before the block, the
      opening tag, the script, the closing tag, markup after the block. */
  ghost predicate PutsBack(s: string, sp: Split, m: Match)
  {
    m.start <= |sp.markUp| && m.start <= m.tagEnd < m.bodyEnd <= m.End() <= |s| &&
    sp.markUp[..m.start] + s[m.start..m.tagEnd + 1] + sp.script + s[m.bodyEnd..m.End()]
      + sp.markUp[m.start..] == s
  }

  /** The input is the split's markup with the removed block put back where
      it was: markup before the block, the opening tag, the script, the
      closing tag, markup after the block. */
  lemma {:induction false} SplitReconstructs(s: string)
    ensures SplitMarkup(Some(s)).Success? ==>
      PutsBack(s, SplitMarkup(Some(s)).value, FindMatch(s).value)
  {
    match FindMatch(s)
    case None =>
      assert SplitMarkup(Some(s)).Failure?;
    case Some(m) =>
      var sp := Cut(s, m);
      assert SplitMarkup(Some(s)) == Success(sp);
      Reassemble(s, sp, m);
  }

  /** The reassembly, from the two equations that define a split. */
  lemma Reassemble(s: string, sp: Split, m: Match)
    requires m.start <= m.tagEnd < m.bodyEnd <= m.End() <= |s|
    requires sp.markUp == s[..m.start] + s[m.End()..]
    requires sp.script == s[m.tagEnd + 1..m.bodyEnd]
    ensures PutsBack(s, sp, m)
  {
    assert sp.markUp[..m.start] == s[..m.start];
    assert sp.markUp[m.start..] == s[m.End()..];
    assert s[..m.tagEnd + 1] == s[..m.start] + s[m.start..m.tagEnd + 1];
    assert s[..m.bodyEnd] == s[..m.tagEnd + 1] + sp.script;
    assert s[..m.End()] == s[..m.bodyEnd] + s[m.bodyEnd..m.End()];
    assert s == s[..m.End()] + s[m.End()..];
  }

  /** An occurrence inside a slice is an occurrence in the whole text. */
  lemma SliceOccurs(s: string, from: nat, to: nat, q: nat, pat: string, ignoreCase: bool)
    requires from <= to <= |s|
    ensures OccursAt(s[from..to], q, pat, ignoreCase) ==> OccursAt(s, from + q, pat, ignoreCase)
  {
    if OccursAt(s[from..to], q, pat, ignoreCase) {
      forall j | 0 <= j < |pat|
        ensures SameChar(s[from + q + j], pat[j], ignoreCase)
      {
        assert s[from + q + j] == s[from..to][q + j];
      }
    }
  }

  /** Only the first block is taken out.  No `<script` (in any case) comes
      before it, so the markup before the cut holds no block; the script
      holds no complete `</script>`, so a later block's body is never part
      of it; and everything after the block is kept verbatim. */
  lemma {:induction false} SplitTakesOnlyFirstBlock(s: string)
    ensures SplitMarkup(Some(s)).Success? ==>
      var sp, m := SplitMarkup(Some(s)).value, FindMatch(s).value;
      (forall q :: 0 <= q < m.start ==> !OccursAt(s, q, ScriptOpen, true)) &&
      (forall q :: 0 <= q ==> !OccursAt(sp.script, q, ScriptClose, true)) &&
      sp.markUp[m.start..] == s[m.End()..]
  {
    match FindMatch(s)
    case None =>
    case Some(m) =>
      var sp := Cut(s, m);
      assert SplitMarkup(Some(s)) == Success(sp);
      NoOpenBefore(s, m);
      NoCloseInside(s, m, sp.script);
      assert sp.markUp == s[..m.start] + s[m.End()..];
  }

  /** Before the reported match no `<script` starts: it would start an
      earlier match. */
  lemma NoOpenBefore(s: string, m: Match)
    requires IsReportedMatch(s, m.start, m.tagEnd, m.bodyEnd)
    ensures forall q :: 0 <= q < m.start ==> !OccursAt(s, q, ScriptOpen, true)
  {
    forall q | 0 <= q < m.start
      ensures !OccursAt(s, q, ScriptOpen, true)
    {
      assert !IsMatch(s, q, m.tagEnd, m.bodyEnd);
    }
  }

  /** The reported match's body holds no `</script>`: it would end a
      shorter match. */
  lemma NoCloseInside(s: string, m: Match, body: string)
    requires IsReportedMatch(s, m.start, m.tagEnd, m.bodyEnd) && m.End() <= |s|
    requires body == s[m.tagEnd + 1..m.bodyEnd]
    ensures forall q :: 0 <= q ==> !OccursAt(body, q, ScriptClose, true)
  {
    forall q | 0 <= q
      ensures !OccursAt(body, q, ScriptClose, true)
    {
      if q + |ScriptClose| <= |body| {
        assert !IsMatch(s, m.start, m.tagEnd, m.tagEnd + 1 + q);
        SliceOccurs(s, m.tagEnd + 1, m.bodyEnd, q, ScriptClose, true);
      }
    }
  }
}
