/**
 * The track search box (`pages/tracks/index.tsx`): the autocomplete splits the typed
 * query with `/^(.*?[!(]*)([\S]*)$/` into a head (everything up to the last, incomplete
 * term, including that term's leading `!` and `(`) and a tail (the incomplete term), and
 * offers each example as the head followed by the example.
 */
module SearchBox {
  import opened Wrappers
  import SearchExamples

  /** The characters `.` does not match: ECMAScript's line terminators. */
  predicate IsLineTerminator(c: char) {
    c == '\n' || c == '\r' || c == '\U{2028}' || c == '\U{2029}'
  }

  /** ECMAScript's `\s`: its white space (tab, vertical tab, form feed, the byte order
      mark and the space separators) and its line terminators. */
  predicate IsWhitespace(c: char) {
    || c == '\t' || c == '\U{000B}' || c == '\U{000C}' || c == ' ' || c == '\U{00A0}'
    || c == '\U{1680}' || ('\U{2000}' <= c <= '\U{200A}') || c == '\U{202F}' || c == '\U{205F}'
    || c == '\U{3000}' || c == '\U{FEFF}' || IsLineTerminator(c)
  }

  /** The class `[!(]`. */
  predicate IsBangOrParen(c: char) {
    c == '!' || c == '('
  }

  predicate HasLineTerminator(s: string) {
    exists i :: 0 <= i < |s| && IsLineTerminator(s[i])
  }

  // ---------------------------------------------------------------------------------------
  // The regular expression, declaratively
  // ---------------------------------------------------------------------------------------

  /** The pattern matches the whole string with `.*?` taking `s[..p]`, `[!(]*` taking
      `s[p..q]` and `[\S]*` taking `s[q..]`. */
  predicate MatchesAt(s: string, p: int, q: int) {
    && 0 <= p <= q <= |s|
    && (forall i :: 0 <= i < p ==> !IsLineTerminator(s[i]))
    && (forall i :: p <= i < q ==> IsBangOrParen(s[i]))
    && (forall i :: q <= i < |s| ==> !IsWhitespace(s[i]))
  }

  /** The match `exec` reports: backtracking tries the lazy `.*?` shortest first, and for
      it the greedy `[!(]*` longest first. */
  ghost predicate ExecMatch(s: string, p: int, q: int) {
    && MatchesAt(s, p, q)
    && (forall p', q' :: 0 <= p' < p ==> !MatchesAt(s, p', q'))
    && (forall q' :: q < q' <= |s| ==> !MatchesAt(s, p, q'))
  }

  // ---------------------------------------------------------------------------------------
  // The split, computed
  // ---------------------------------------------------------------------------------------

  /** The position just after the last white space character, 0 when there is none. */
  function WhitespaceEnd(s: string): (w: nat)
    ensures w <= |s|
    ensures forall i :: w <= i < |s| ==> !IsWhitespace(s[i])
    ensures w > 0 ==> IsWhitespace(s[w - 1])
  {
    if s == [] then 0
    else if IsWhitespace(s[|s| - 1]) then |s|
    else WhitespaceEnd(s[..|s| - 1])
  }

  /** The end of the run of `!` and `(` that starts at `from`. */
  function RunEnd(s: string, from: nat): (q: nat)
    requires from <= |s|
    ensures from <= q <= |s|
    ensures forall i :: from <= i < q ==> IsBangOrParen(s[i])
    ensures q < |s| ==> !IsBangOrParen(s[q])
    decreases |s| - from
  {
    if from < |s| && IsBangOrParen(s[from]) then RunEnd(s, from + 1) else from
  }

  /** The length of the head (`matches[1]`), or `None` when the pattern does not match. */
  function HeadLength(s: string): (h: Option<nat>)
    ensures h.None? <==> HasLineTerminator(s)
    ensures h.Some? ==> h.value <= |s|
  {
    if HasLineTerminator(s) then None else Some(RunEnd(s, WhitespaceEnd(s)))
  }

  /** The computed split is the one `exec` reports: it is the only reported match, and
      there is none when the query holds a line terminator. */
  lemma ExecMatchExact(s: string, p: int, q: int)
    ensures ExecMatch(s, p, q) <==>
      !HasLineTerminator(s) && p == WhitespaceEnd(s) && q == HeadLength(s).value
  {
    var w := WhitespaceEnd(s);
    var h := RunEnd(s, w);
    // No match starts before the last white space: that character would have to be `!` or `(`.
    forall p', q' | 0 <= p' < w ensures !MatchesAt(s, p', q') {
      assert IsWhitespace(s[w - 1]);
    }
    // From `w`, no match ends its `[!(]*` beyond the run.
    forall q' | h < q' <= |s| ensures !MatchesAt(s, w, q') {
      assert !IsBangOrParen(s[h]);
    }
    if !HasLineTerminator(s) {
      assert MatchesAt(s, w, h);
      assert ExecMatch(s, w, h);
    }
    if ExecMatch(s, p, q) {
      assert MatchesAt(s, w, h);
      assert p == w;
      assert q == h;
    }
  }

  /** `matches[1]`. */
  function Head(s: string): (head: string)
    requires !HasLineTerminator(s)
    ensures head == s[..HeadLength(s).value]
  {
    s[..HeadLength(s).value]
  }

  /** The query is the head followed by the tail; the tail holds no white space and does
      not start with `!` or `(`; and the head is empty exactly when the query has no white
      space and does not start with `!` or `(`. */
  lemma SplitProperties(s: string)
    requires !HasLineTerminator(s)
    ensures
      var h := HeadLength(s).value;
      && s[..h] + s[h..] == s
      && (forall i :: h <= i < |s| ==> !IsWhitespace(s[i]))
      && (h < |s| ==> !IsBangOrParen(s[h]))
      && (h == 0 <==> (forall i :: 0 <= i < |s| ==> !IsWhitespace(s[i])) && (s == [] || !IsBangOrParen(s[0])))
  {
    var w := WhitespaceEnd(s);
    if w > 0 {
      assert IsWhitespace(s[w - 1]);
    }
  }

  /** One autocomplete option: the text accepting it puts in the box, and its label's parts. */
  datatype SearchOption = SearchOption(value: string, labelPrefix: string, labelValue: string, labelDescription: string)

  /** `searchOptions`: every example prefixed with the head. The `assert` on the match
      throws only when an example is mapped, so an empty example list never fails. */
  function SearchOptions(search: string, examples: seq<SearchExamples.Example>): (r: Result<seq<SearchOption>, string>)
    ensures r.Failure? <==> examples != [] && HasLineTerminator(search)
    ensures r.Success? ==> |r.value| == |examples|
    ensures r.Success? && examples != [] ==> forall i :: 0 <= i < |examples| ==>
      && r.value[i].value == Head(search) + examples[i].value
      && (r.value[i].labelPrefix == "... " <==> Head(search) != [])
      && (r.value[i].labelPrefix == "" <==> Head(search) == [])
      && r.value[i].labelValue == examples[i].value
      && r.value[i].labelDescription == examples[i].description
  {
    if examples == [] then Success([])
    else
      match HeadLength(search)
      case None => Failure("Failed to match search")
      case Some(h) =>
        var head := search[..h];
        Success(seq(|examples|, i requires 0 <= i < |examples| =>
          SearchOption(head + examples[i].value, if |head| == 0 then "" else "... ", examples[i].value, examples[i].description)))
  }

  /** Accepting an option keeps everything before the incomplete last term and replaces
      that term (the tail) with the example. */
  lemma AcceptReplacesTail(search: string, examples: seq<SearchExamples.Example>, i: nat)
    requires !HasLineTerminator(search) && i < |examples|
    ensures
      var h := HeadLength(search).value;
      && SearchOptions(search, examples).Success?
      && SearchOptions(search, examples).value[i].value == search[..h] + examples[i].value
      && search == search[..h] + search[h..]
      && (forall j :: h <= j < |search| ==> !IsWhitespace(search[j]))
  {
    SplitProperties(search);
  }
}
