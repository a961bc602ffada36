/** The AVR seed-data line rewriter (scripts/fix-avr-data.py).

    The script reads a text file, splits it on '\n', rewrites every line on
    its own and writes the lines back joined with '\n'. A line is rewritten
    only when it is a data line: it is not a comment line, it does not
    contain `-0"`, and it contains `unit:`, `required:` and
    `proposedGuaranteed:`. On a data line the `description` value may move
    into `required`, and an empty `proposedGuaranteed` is filled with a fixed
    placeholder.

    The model follows what Python does, not what the script's comments say:
    the move condition parses as `(desc and req in ['Yes','No']) or
    req.isdigit()`, and `str.replace` replaces every occurrence of the
    single-space literal `key: "value"`, which need not be the text the
    regular expression matched. */
module AvrRewriter {
  import opened Wrappers
  import opened Text

  /** The value written into an empty `proposedGuaranteed`. */
  const Placeholder: string := "Harus diisi oleh vendor"

  const DescriptionKey: string := "description:"
  const RequiredKey: string := "required:"
  const GuaranteedKey: string := "proposedGuaranteed:"

  // ---------------------------------------------------------------------
  // Python whitespace, strip() and the comment test
  // ---------------------------------------------------------------------

  /** Python's `str.isspace` / regex `\s`, restricted to the characters
      below U+0080: space, \t, \n, \v, \f, \r and the separators
      U+001C..U+001F. */
  predicate IsSpace(c: char) {
    c == ' ' || '\t' <= c <= '\r' || '\U{1c}' <= c <= '\U{1f}'
  }

  predicate AllSpaces(s: string) {
    forall k :: 0 <= k < |s| ==> IsSpace(s[k])
  }

  /** `str.lstrip()`: drop leading whitespace. */
  function LStrip(s: string): (r: string)
    ensures |r| <= |s| && r == s[|s| - |r|..]
    ensures r == [] || !IsSpace(r[0])
  {
    if s != [] && IsSpace(s[0]) then LStrip(s[1..]) else s
  }

  /** `str.rstrip()`: drop trailing whitespace. */
  function RStrip(s: string): (r: string)
    ensures |r| <= |s| && r == s[..|r|]
    ensures r == [] || !IsSpace(r[|r| - 1])
    ensures forall k :: 0 <= k < |s| && !IsSpace(s[k]) ==> k < |r|
  {
    if s != [] && IsSpace(s[|s| - 1]) then RStrip(s[..|s| - 1]) else s
  }

  /** `str.strip()`. */
  function Strip(s: string): string {
    RStrip(LStrip(s))
  }

  /** The test on line 25: `line.strip().startswith('//') or '-0"' in line`. */
  predicate IsCommentOrHeader(line: string) {
    StartsWith(Strip(line), "//") || Contains(line, "-0\"")
  }

  /** Stripping trailing whitespace cannot change whether the text starts
      with "//": the comment test only looks at the first non-blank
      characters. */
  lemma CommentTestIgnoresTrailingSpace(line: string)
    ensures StartsWith(Strip(line), "//") <==> StartsWith(LStrip(line), "//")
  {
    var l := LStrip(line);
    var r := RStrip(l);
    assert Strip(line) == r;
    assert r == l[..|r|];
    if StartsWith(l, "//") {
      assert l[1] == '/' && !IsSpace(l[1]);
      assert 1 < |r|;
      assert r[..2] == l[..2];
    }
    if StartsWith(r, "//") {
      assert l[..2] == r[..2];
    }
  }

  /** The test on line 30. */
  predicate IsDataLine(line: string) {
    Contains(line, "unit:") && Contains(line, RequiredKey) && Contains(line, GuaranteedKey)
  }

  /** A line the loop body rewrites: neither comment nor header, and a data
      line. */
  predicate Qualifies(line: string) {
    !IsCommentOrHeader(line) && IsDataLine(line)
  }

  // ---------------------------------------------------------------------
  // re.search(r'<key>\s*"([^"]*)"', line)
  // ---------------------------------------------------------------------

  /** The end of the run of whitespace that starts at `i` (greedy `\s*`). */
  function SkipSpaces(s: string, i: nat): (j: nat)
    requires i <= |s|
    ensures i <= j <= |s|
    ensures AllSpaces(s[i..j])
    ensures j == |s| || !IsSpace(s[j])
    decreases |s| - i
  {
    if i < |s| && IsSpace(s[i]) then
      var j := SkipSpaces(s, i + 1);
      assert s[i..j] == [s[i]] + s[i + 1..j];
      j
    else i
  }

  /** A run of whitespace ending before a non-space is exactly what `\s*`
      consumes. */
  lemma SkipSpacesStopsAt(s: string, i: nat, j: nat)
    requires i <= j < |s| && AllSpaces(s[i..j]) && !IsSpace(s[j])
    ensures SkipSpaces(s, i) == j
    decreases j - i
  {
    if i < j {
      assert IsSpace(s[i..j][0]);
      assert s[i + 1..j] == s[i..j][1..];
      SkipSpacesStopsAt(s, i + 1, j);
    }
  }

  /** A slice of a prefix is a slice of the text. */
  lemma SliceOfPrefix(s: string, i: nat, t: string, a: nat, b: nat)
    requires i <= |s| && StartsWith(s[i..], t) && a <= b <= |t|
    ensures i + b <= |s| && s[i + a..i + b] == t[a..b]
  {
    assert s[i..][..|t|] == t;
    forall k | 0 <= k < b - a ensures s[i + a..i + b][k] == t[a..b][k] {
      assert s[i + a + k] == s[i..][..|t|][a + k];
    }
  }

  /** The index of the first '"' at or after `i`, if any. */
  function QuoteFrom(s: string, i: nat): (r: Option<nat>)
    requires i <= |s|
    ensures r.Some? ==> i <= r.value < |s| && s[r.value] == '"'
    ensures r.Some? ==> forall k :: i <= k < r.value ==> s[k] != '"'
    ensures r.None? ==> forall k :: i <= k < |s| ==> s[k] != '"'
    decreases |s| - i
  {
    if i == |s| then None
    else if s[i] == '"' then Some(i)
    else QuoteFrom(s, i + 1)
  }

  /** The first quote at or after `i` is at `e` when `e` holds a quote and
      nothing between does. */
  lemma QuoteFromFinds(s: string, i: nat, e: nat)
    requires i <= e < |s| && s[e] == '"'
    requires forall k :: i <= k < e ==> s[k] != '"'
    ensures QuoteFrom(s, i) == Some(e)
    decreases e - i
  {
    if i < e {
      QuoteFromFinds(s, i + 1, e);
    }
  }

  /** The group captured by `key\s*"([^"]*)"` when the match starts at `i`,
      or None when the pattern does not match there. `\s*` and `[^"]*` are
      greedy, but neither can give characters back to a successful match
      (a quote is not whitespace, and `[^"]*` stops at the quote the pattern
      needs), so the match at `i` is unique. */
  function FieldAt(s: string, key: string, i: nat): (r: Option<string>)
    requires i <= |s|
    ensures r.Some? ==> '"' !in r.value
  {
    if !OccursAt(s, key, i) then None
    else
      var j := SkipSpaces(s, i + |key|);
      if j < |s| && s[j] == '"' then
        match QuoteFrom(s, j + 1)
        case None => None
        case Some(k) => Some(s[j + 1..k])
      else None
  }

  /** The text of one match of `key\s*"([^"]*)"`: the key, a run of
      whitespace, and the quoted value. */
  function FieldText(key: string, spaces: string, v: string): string {
    key + spaces + "\"" + v + "\""
  }

  /** The regular expression matches at `i` with whitespace `spaces` and
      captured group `v`. */
  predicate FieldMatchesAt(s: string, key: string, i: nat, spaces: string, v: string) {
    AllSpaces(spaces) && '"' !in v && i <= |s| && StartsWith(s[i..], FieldText(key, spaces, v))
  }

  /** The pieces of a match, read back from the text. */
  lemma FieldTextParts(s: string, key: string, i: nat, spaces: string, v: string)
    requires FieldMatchesAt(s, key, i, spaces, v)
    ensures i + |key| + |spaces| + 1 + |v| < |s|
    ensures OccursAt(s, key, i)
    ensures s[i + |key|..i + |key| + |spaces|] == spaces
    ensures s[i + |key| + |spaces|] == '"'
    ensures s[i + |key| + |spaces| + 1..i + |key| + |spaces| + 1 + |v|] == v
    ensures s[i + |key| + |spaces| + 1 + |v|] == '"'
  {
    var t := FieldText(key, spaces, v);
    var a, b := |key|, |key| + |spaces|;
    SliceOfPrefix(s, i, t, 0, a);
    SliceOfPrefix(s, i, t, a, b);
    SliceOfPrefix(s, i, t, b, b + 1);
    SliceOfPrefix(s, i, t, b + 1, |t| - 1);
    SliceOfPrefix(s, i, t, |t| - 1, |t|);
    assert t[a..b] == spaces && t[b + 1..|t| - 1] == v;
  }

  /** Where the regular expression matches, `FieldAt` captures its group. */
  lemma FieldAtOfMatch(s: string, key: string, i: nat, spaces: string, v: string)
    requires FieldMatchesAt(s, key, i, spaces, v)
    ensures FieldAt(s, key, i) == Some(v)
  {
    FieldTextParts(s, key, i, spaces, v);
    var j := i + |key| + |spaces|;
    SkipSpacesStopsAt(s, i + |key|, j);
    var e := j + 1 + |v|;
    forall k | j + 1 <= k < e ensures s[k] != '"' {
      assert s[k] == s[j + 1..e][k - j - 1];
    }
    QuoteFromFinds(s, j + 1, e);
  }

  /** Where `FieldAt` captures a group, the regular expression matches. */
  lemma MatchOfFieldAt(s: string, key: string, i: nat)
    requires i <= |s| && FieldAt(s, key, i).Some?
    ensures exists sp :: FieldMatchesAt(s, key, i, sp, FieldAt(s, key, i).value)
  {
    var j := SkipSpaces(s, i + |key|);
    var k := QuoteFrom(s, j + 1).value;
    var sp, w := s[i + |key|..j], s[j + 1..k];
    var t := FieldText(key, sp, w);
    assert s[i..][..|t|] == t by {
      assert s[i..][..|t|] == s[i..i + |key|] + s[i + |key|..j] + [s[j]] + s[j + 1..k] + [s[k]];
    }
    assert FieldMatchesAt(s, key, i, sp, w);
  }

  /** `FieldAt` is the regular expression's semantics: it returns `v`
      exactly when the text at `i` is the key, whitespace, and `v` in
      quotes with no quote inside. */
  lemma FieldAtIsRegexMatch(s: string, key: string, i: nat, v: string)
    requires i <= |s|
    ensures FieldAt(s, key, i) == Some(v) <==> exists sp :: FieldMatchesAt(s, key, i, sp, v)
  {
    if FieldAt(s, key, i) == Some(v) {
      MatchOfFieldAt(s, key, i);
    }
    if sp :| FieldMatchesAt(s, key, i, sp, v) {
      FieldAtOfMatch(s, key, i, sp, v);
    }
  }

  /** `re.search` from position `i`: the group of the leftmost match at or
      after `i`. */
  function SearchFieldFrom(s: string, key: string, i: nat): (r: Option<string>)
    requires i <= |s|
    ensures r.Some? ==> '"' !in r.value
    decreases |s| - i
  {
    var here := FieldAt(s, key, i);
    if here.Some? then here
    else if i == |s| then None
    else SearchFieldFrom(s, key, i + 1)
  }

  /** `SearchFieldFrom` is a leftmost search: it fails exactly when no
      position at or after `i` matches, and otherwise returns the group of
      the first position that does. */
  lemma {:induction false} SearchFieldIsLeftmost(s: string, key: string, i: nat)
    requires i <= |s|
    ensures SearchFieldFrom(s, key, i).None? <==>
              forall m :: i <= m <= |s| ==> FieldAt(s, key, m).None?
    ensures SearchFieldFrom(s, key, i).Some? ==>
              exists m :: i <= m <= |s| && FieldAt(s, key, m) == SearchFieldFrom(s, key, i) &&
                forall m' :: i <= m' < m ==> FieldAt(s, key, m').None?
    decreases |s| - i
  {
    if FieldAt(s, key, i).None? && i < |s| {
      SearchFieldIsLeftmost(s, key, i + 1);
      if SearchFieldFrom(s, key, i).Some? {
        var m :| i + 1 <= m <= |s| && FieldAt(s, key, m) == SearchFieldFrom(s, key, i) &&
                 forall m' :: i + 1 <= m' < m ==> FieldAt(s, key, m').None?;
        assert forall m' :: i <= m' < m ==> FieldAt(s, key, m').None?;
      }
    }
  }

  /** `re.search(r'<key>\s*"([^"]*)"', line).group(1)`, or None when the
      search fails. */
  function SearchField(line: string, key: string): Option<string> {
    SearchFieldFrom(line, key, 0)
  }

  // ---------------------------------------------------------------------
  // The move condition and str.replace
  // ---------------------------------------------------------------------

  /** Python `str.isdigit` on ASCII text: non-empty and all digits. */
  predicate IsDigitString(s: string) {
    |s| > 0 && AllDigits(s)
  }

  /** Line 41 as Python parses it:
      `(desc_value and req_value in ['Yes', 'No']) or req_value.isdigit()`. */
  predicate MoveCondition(desc: string, req: string) {
    (desc != "" && (req == "Yes" || req == "No")) || IsDigitString(req)
  }

  /** The effective condition, case by case: an all-digit `required` moves
      even with an empty description, and "Yes"/"No" move only with a
      non-empty one. It is not the reading in which "No" moves on its own. */
  lemma MoveConditionCases(desc: string, req: string)
    ensures IsDigitString(req) ==> MoveCondition(desc, req)
    ensures req == "Yes" || req == "No" ==> (MoveCondition(desc, req) <==> desc != "")
    ensures !IsDigitString(req) && req != "Yes" && req != "No" ==> !MoveCondition(desc, req)
    ensures MoveCondition("", "No") == false && MoveCondition("", "7") == true
  {
    assert "Yes"[0] == 'Y' && "No"[0] == 'N';
    assert IsDigitString("7");
  }

  /** Python `s.replace(pat, rep)`: every non-overlapping occurrence of
      `pat`, scanning from the left, is replaced by `rep`. */
  function ReplaceAll(s: string, pat: string, rep: string): (r: string)
    requires |pat| > 0
    decreases |s|
  {
    if |s| < |pat| then s
    else if s[..|pat|] == pat then rep + ReplaceAll(s[|pat|..], pat, rep)
    else [s[0]] + ReplaceAll(s[1..], pat, rep)
  }

  /** With no occurrence of the pattern, `replace` changes nothing. This is
      what happens when the regular expression matched text with other
      spacing than the single space of the literal. */
  lemma {:induction false} ReplaceAllAbsent(s: string, pat: string, rep: string)
    requires |pat| > 0 && !Contains(s, pat)
    ensures ReplaceAll(s, pat, rep) == s
    decreases |s|
  {
    if |s| >= |pat| {
      assert !OccursAt(s, pat, 0);
      if Contains(s[1..], pat) { ContainsTail(s, pat); }
      ReplaceAllAbsent(s[1..], pat, rep);
    }
  }

  /** Replacing a pattern by itself changes nothing. */
  lemma {:induction false} ReplaceAllSelf(s: string, pat: string)
    requires |pat| > 0
    ensures ReplaceAll(s, pat, pat) == s
    decreases |s|
  {
    if |s| >= |pat| {
      if s[..|pat|] == pat {
        ReplaceAllSelf(s[|pat|..], pat);
        assert s == pat + s[|pat|..];
      } else {
        ReplaceAllSelf(s[1..], pat);
        assert s == [s[0]] + s[1..];
      }
    }
  }

  function Repeat(s: string, n: nat): string {
    if n == 0 then [] else s + Repeat(s, n - 1)
  }

  /** `replace` is global: n back-to-back copies of the pattern all become
      copies of the replacement. */
  lemma {:induction false} ReplaceAllEveryCopy(pat: string, rep: string, n: nat)
    requires |pat| > 0
    ensures ReplaceAll(Repeat(pat, n), pat, rep) == Repeat(rep, n)
  {
    if n > 0 {
      var s := Repeat(pat, n);
      assert s[..|pat|] == pat && s[|pat|..] == Repeat(pat, n - 1);
      ReplaceAllEveryCopy(pat, rep, n - 1);
    }
  }

  /** An occurrence in the tail is an occurrence one position on. */
  lemma OccursInTail(s: string, pat: string, i: nat)
    requires s != []
    ensures OccursAt(s[1..], pat, i) <==> OccursAt(s, pat, i + 1)
  {
    if i + |pat| <= |s| - 1 {
      assert s[1..][i..i + |pat|] == s[i + 1..i + 1 + |pat|];
    }
  }

  /** Concatenation regroups. */
  lemma ConsAppend(c: char, a: string, b: string)
    ensures [c] + (a + b) == ([c] + a) + b
  {
  }

  /** Text before the first occurrence of the pattern is copied as it is. */
  lemma {:induction false} ReplaceAllSkip(p: string, t: string, pat: string, rep: string)
    requires |pat| > 0
    requires forall i :: 0 <= i < |p| ==> !OccursAt(p + t, pat, i)
    ensures ReplaceAll(p + t, pat, rep) == p + ReplaceAll(t, pat, rep)
    decreases |p|
  {
    var s := p + t;
    if p == [] {
      assert s == t;
    } else if |s| < |pat| {
      assert ReplaceAll(t, pat, rep) == t;
    } else {
      assert !OccursAt(s, pat, 0);
      assert s[1..] == p[1..] + t;
      forall i | 0 <= i < |p| - 1 ensures !OccursAt(p[1..] + t, pat, i) {
        OccursInTail(s, pat, i);
      }
      ReplaceAllSkip(p[1..], t, pat, rep);
      ConsAppend(p[0], p[1..], ReplaceAll(t, pat, rep));
      assert p == [p[0]] + p[1..];
    }
  }

  /** `replace` in the middle of a line: the text up to the first
      occurrence is kept, that occurrence becomes the replacement, and the
      scan goes on after it. With `ReplaceAllAbsent` for the rest of the line
      this fixes the whole result. */
  lemma ReplaceAllStep(p: string, r: string, pat: string, rep: string)
    requires |pat| > 0
    requires forall i :: 0 <= i < |p| ==> !OccursAt(p + pat + r, pat, i)
    ensures ReplaceAll(p + pat + r, pat, rep) == p + rep + ReplaceAll(r, pat, rep)
  {
    assert p + pat + r == p + (pat + r);
    ReplaceAllSkip(p, pat + r, pat, rep);
    assert (pat + r)[..|pat|] == pat && (pat + r)[|pat|..] == r;
  }

  /** The literal `key: "value"` that lines 43 and 45 replace: exactly one
      space after the colon. */
  function Literal(key: string, value: string): string {
    key + " \"" + value + "\""
  }

  /** Lines 35-45: when both searches succeed and the condition holds,
      `description: "<desc>"` becomes `description: ""` everywhere, and then
      `required: "<req>"` becomes `required: "<desc>"` everywhere. */
  function MoveDescription(line: string): string {
    var d := SearchField(line, DescriptionKey);
    var q := SearchField(line, RequiredKey);
    if d.Some? && q.Some? && MoveCondition(d.value, q.value) then
      var cleared := ReplaceAll(line, Literal(DescriptionKey, d.value), Literal(DescriptionKey, ""));
      ReplaceAll(cleared, Literal(RequiredKey, q.value), Literal(RequiredKey, d.value))
    else line
  }

  // ---------------------------------------------------------------------
  // re.sub(r'proposedGuaranteed:\s*""', 'proposedGuaranteed: "..."', line)
  // ---------------------------------------------------------------------

  /** The end of a match of `proposedGuaranteed:\s*""` starting at `i`, or
      None when the pattern does not match there. */
  function EmptyGuaranteedEnd(s: string, i: nat): (r: Option<nat>)
    requires i <= |s|
    ensures r.Some? ==> i < r.value <= |s|
  {
    if !OccursAt(s, GuaranteedKey, i) then None
    else
      var j := SkipSpaces(s, i + |GuaranteedKey|);
      if j + 2 <= |s| && s[j] == '"' && s[j + 1] == '"' then Some(j + 2) else None
  }

  /** The text of an empty `proposedGuaranteed` with whitespace `spaces`. */
  function EmptyGuaranteedText(spaces: string): string {
    GuaranteedKey + spaces + "\"\""
  }

  /** Where the regular expression matches, `EmptyGuaranteedEnd` reports
      the end of the match. */
  lemma EmptyGuaranteedEndOfMatch(s: string, i: nat, spaces: string)
    requires i <= |s| && AllSpaces(spaces) && StartsWith(s[i..], EmptyGuaranteedText(spaces))
    ensures EmptyGuaranteedEnd(s, i) == Some(i + |EmptyGuaranteedText(spaces)|)
  {
    var key := GuaranteedKey;
    var t := EmptyGuaranteedText(spaces);
    var a, b := |key|, |key| + |spaces|;
    SliceOfPrefix(s, i, t, 0, a);
    SliceOfPrefix(s, i, t, a, b);
    SliceOfPrefix(s, i, t, b, |t|);
    assert t[a..b] == spaces && t[b..] == "\"\"";
    var j := i + b;
    assert s[j] == '"' && s[j + 1] == '"';
    SkipSpacesStopsAt(s, i + a, j);
  }

  /** Where `EmptyGuaranteedEnd` reports a match, the text is the key,
      whitespace and two quotes. */
  lemma MatchOfEmptyGuaranteedEnd(s: string, i: nat)
    requires i <= |s| && EmptyGuaranteedEnd(s, i).Some?
    ensures exists sp :: AllSpaces(sp) && s[i..EmptyGuaranteedEnd(s, i).value] == EmptyGuaranteedText(sp)
  {
    var key := GuaranteedKey;
    var j := SkipSpaces(s, i + |key|);
    var sp := s[i + |key|..j];
    assert s[i..j + 2] == s[i..i + |key|] + sp + [s[j], s[j + 1]];
    assert s[i..j + 2] == EmptyGuaranteedText(sp);
  }

  /** The replacement text of line 48. */
  function FilledGuaranteed(): string {
    Literal(GuaranteedKey, Placeholder)
  }

  /** Python `re.sub` with the pattern of line 48: scanning from the left,
      every match is replaced and the scan resumes after it. */
  function FillGuaranteed(s: string): string
    decreases |s|
  {
    if s == [] then []
    else
      match EmptyGuaranteedEnd(s, 0)
      case Some(j) => FilledGuaranteed() + FillGuaranteed(s[j..])
      case None => [s[0]] + FillGuaranteed(s[1..])
  }

  /** How many characters `re.sub` copies before its first replacement. */
  function CopiedPrefix(s: string): (m: nat)
    ensures m <= |s|
    decreases |s|
  {
    if s == [] || EmptyGuaranteedEnd(s, 0).Some? then 0 else 1 + CopiedPrefix(s[1..])
  }

  /** No empty `proposedGuaranteed` anywhere in `s`. */
  predicate NoEmptyGuaranteed(s: string) {
    forall i :: 0 <= i <= |s| ==> EmptyGuaranteedEnd(s, i).None?
  }

  /** A match in the tail is a match in the whole line, one position on. */
  lemma EmptyGuaranteedEndShift(s: string, i: nat)
    requires s != [] && i <= |s| - 1
    ensures EmptyGuaranteedEnd(s[1..], i).Some? ==> EmptyGuaranteedEnd(s, i + 1).Some?
  {
    var t := s[1..];
    if EmptyGuaranteedEnd(t, i).Some? {
      var e := EmptyGuaranteedEnd(t, i).value;
      MatchOfEmptyGuaranteedEnd(t, i);
      var sp :| AllSpaces(sp) && t[i..e] == EmptyGuaranteedText(sp);
      assert s[i + 1..][..e - i] == t[i..e];
      EmptyGuaranteedEndOfMatch(s, i + 1, sp);
    }
  }

  /** One step of `re.sub` where no match starts: the character is copied. */
  lemma FillGuaranteedCopies(s: string)
    requires s != [] && EmptyGuaranteedEnd(s, 0).None?
    ensures FillGuaranteed(s) == [s[0]] + FillGuaranteed(s[1..])
  {
  }

  /** One step of `re.sub` where a match starts: it becomes the placeholder. */
  lemma FillGuaranteedReplaces(s: string)
    requires s != [] && EmptyGuaranteedEnd(s, 0).Some?
    ensures FillGuaranteed(s) == FilledGuaranteed() + FillGuaranteed(s[EmptyGuaranteedEnd(s, 0).value..])
  {
  }

  /** A line with no empty `proposedGuaranteed` leaves `re.sub` unchanged:
      non-empty values are never overwritten. */
  lemma {:induction false} FillGuaranteedNoMatch(s: string)
    requires NoEmptyGuaranteed(s)
    ensures FillGuaranteed(s) == s
    decreases |s|
  {
    if s != [] {
      assert EmptyGuaranteedEnd(s, 0).None?;
      forall i | 0 <= i <= |s[1..]| ensures EmptyGuaranteedEnd(s[1..], i).None? {
        EmptyGuaranteedEndShift(s, i);
      }
      FillGuaranteedCopies(s);
      FillGuaranteedNoMatch(s[1..]);
      assert s == [s[0]] + s[1..];
    }
  }

  /** An empty `proposedGuaranteed` at the start of the text is replaced by
      the placeholder, whatever whitespace it had. */
  lemma FillGuaranteedAtStart(spaces: string, rest: string)
    requires AllSpaces(spaces)
    ensures FillGuaranteed(EmptyGuaranteedText(spaces) + rest) ==
            FilledGuaranteed() + FillGuaranteed(rest)
  {
    var t := EmptyGuaranteedText(spaces);
    var s := t + rest;
    assert s[0..][..|t|] == t;
    EmptyGuaranteedEndOfMatch(s, 0, spaces);
    assert s[|t|..] == rest;
  }

  /** A match depends only on the text it covers: the same text elsewhere
      matches too. */
  lemma MatchTransfer(s: string, i: nat, s2: string, i2: nat)
    requires i <= |s| && i2 <= |s2| && EmptyGuaranteedEnd(s, i).Some?
    requires var e := EmptyGuaranteedEnd(s, i).value;
      i2 + (e - i) <= |s2| && s2[i2..i2 + (e - i)] == s[i..e]
    ensures EmptyGuaranteedEnd(s2, i2) == Some(i2 + (EmptyGuaranteedEnd(s, i).value - i))
  {
    var e := EmptyGuaranteedEnd(s, i).value;
    MatchOfEmptyGuaranteedEnd(s, i);
    var sp :| AllSpaces(sp) && s[i..e] == EmptyGuaranteedText(sp);
    assert s2[i2..][..e - i] == s2[i2..i2 + (e - i)];
    EmptyGuaranteedEndOfMatch(s2, i2, sp);
  }

  /** No match in the first `n` positions of a text means `re.sub` copies at
      least `n` characters before its first replacement. */
  lemma {:induction false} NoMatchCopied(s: string, n: nat)
    requires n <= |s|
    requires forall i :: 0 <= i < n ==> EmptyGuaranteedEnd(s, i).None?
    ensures n <= CopiedPrefix(s)
    decreases n
  {
    if 0 < n {
      assert EmptyGuaranteedEnd(s, 0).None?;
      forall i | 0 <= i < n - 1 ensures EmptyGuaranteedEnd(s[1..], i).None? {
        EmptyGuaranteedEndShift(s, i);
      }
      NoMatchCopied(s[1..], n - 1);
    }
  }

  /** Text before the first empty `proposedGuaranteed` is copied as it is. */
  lemma {:induction false} FillGuaranteedSkip(p: string, t: string)
    requires |p| <= CopiedPrefix(p + t)
    ensures FillGuaranteed(p + t) == p + FillGuaranteed(t)
    decreases |p|
  {
    if p == [] {
      assert p + t == t;
    } else {
      var s := p + t;
      assert s[1..] == p[1..] + t;
      FillGuaranteedCopies(s);
      FillGuaranteedSkip(p[1..], t);
      ConsAppend(p[0], p[1..], FillGuaranteed(t));
      assert p == [p[0]] + p[1..];
    }
  }

  /** `re.sub` in the middle of a line: the text up to the first empty
      `proposedGuaranteed` is kept, that value becomes the placeholder
      whatever whitespace it had, and the scan goes on after it. With
      `FillGuaranteedNoMatch` for the rest of the line this fixes the whole
      result: every empty value is filled and everything else is kept. */
  lemma FillGuaranteedStep(p: string, spaces: string, r: string)
    requires AllSpaces(spaces)
    requires forall i :: 0 <= i < |p| ==> EmptyGuaranteedEnd(p + EmptyGuaranteedText(spaces) + r, i).None?
    ensures FillGuaranteed(p + EmptyGuaranteedText(spaces) + r) ==
            p + FilledGuaranteed() + FillGuaranteed(r)
  {
    var t := EmptyGuaranteedText(spaces) + r;
    assert p + EmptyGuaranteedText(spaces) + r == p + t;
    NoMatchCopied(p + t, |p|);
    FillGuaranteedSkip(p, t);
    FillGuaranteedAtStart(spaces, r);
  }

  /** A match past the end of `p` is a match in `t`. */
  lemma MatchInSuffix(p: string, t: string, i: nat)
    requires |p| <= i <= |p + t|
    ensures EmptyGuaranteedEnd(p + t, i).Some? ==> EmptyGuaranteedEnd(t, i - |p|).Some?
  {
    var s := p + t;
    if EmptyGuaranteedEnd(s, i).Some? {
      var e := EmptyGuaranteedEnd(s, i).value;
      assert t[i - |p|..i - |p| + (e - i)] == s[i..e];
      MatchTransfer(s, i, t, i - |p|);
    }
  }

  /** The placeholder text holds no empty `proposedGuaranteed`, and no match
      can start inside it, whatever follows. */
  lemma FilledHoldsNoMatch(t: string, i: nat)
    requires i < |FilledGuaranteed()|
    ensures EmptyGuaranteedEnd(FilledGuaranteed() + t, i).None?
  {
    var f := FilledGuaranteed();
    var x := f + t;
    var key := GuaranteedKey;
    assert |f| == 45 && f[..19] == key && f[19] == ' ' && f[20] == '"' && f[21] == 'H';
    assert forall k :: 0 <= k < 45 && k != 18 ==> f[k] != ':';
    assert forall k :: 20 <= k < 45 ==> f[k] != 'p';
    if i == 0 {
      assert x[..19] == key && x[19..20] == " " && x[20] == '"' && x[21] == 'H';
      SkipSpacesStopsAt(x, 19, 20);
    } else if i + 18 < 45 {
      assert x[i + 18] != key[18];
      assert x[i..i + 19][18] != key[18];
    } else if i + 19 <= |x| {
      assert x[i] != key[0];
      assert x[i..i + 19][0] != key[0];
    }
  }

  /** A `pr` at position 1 to 18 breaks the key `proposedGuaranteed:`. */
  lemma KeyBrokenAt(x: string, n: nat)
    requires 1 <= n < 19 && n + 1 < |x| && x[n] == 'p' && x[n + 1] == 'r'
    ensures !OccursAt(x, GuaranteedKey, 0)
  {
    var key := GuaranteedKey;
    assert forall k :: 0 < k < 18 && key[k] == 'p' ==> key[k + 1] != 'r';
    if 19 <= |x| {
      assert x[..19][n] != key[n] || (n + 1 < 19 && x[..19][n + 1] != key[n + 1]);
    }
  }

  /** When `x` agrees with `s` up to `n >= 19` and has a non-space, non-quote
      at `n`, it matches at 0 only where `s` does. */
  lemma QuotesBrokenAt(s: string, n: nat, x: string)
    requires 19 <= n <= |s| && n + 1 < |x| && x[..n] == s[..n]
    requires x[n] == 'p' && EmptyGuaranteedEnd(s, 0).None?
    ensures EmptyGuaranteedEnd(x, 0).None?
  {
    assert x[..19] == x[..n][..19] == s[..n][..19] == s[..19];
    if OccursAt(s, GuaranteedKey, 0) {
      var js := SkipSpaces(s, 19);
      if js < n {
        assert x[19..js] == s[19..js] && x[js] == s[js];
        SkipSpacesStopsAt(x, 19, js);
        if js + 1 < n {
          assert x[js + 1] == s[js + 1];
        }
      } else {
        assert x[19..n] == s[19..js][..n - 19];
        SkipSpacesStopsAt(x, 19, n);
      }
    }
  }

  /** `re.sub`'s output is the input, or the copied prefix followed by the
      placeholder, whose first characters are `pr`. */
  lemma {:induction false} FillGuaranteedShape(s: string)
    ensures var out, m := FillGuaranteed(s), CopiedPrefix(s);
      || out == s
      || (m + 1 < |out| && out[..m] == s[..m] && out[m] == 'p' && out[m + 1] == 'r')
    decreases |s|
  {
    if s != [] {
      if EmptyGuaranteedEnd(s, 0).Some? {
        FillGuaranteedReplaces(s);
        FilledStartsPr(FillGuaranteed(s[EmptyGuaranteedEnd(s, 0).value..]));
      } else {
        FillGuaranteedCopies(s);
        FillGuaranteedShape(s[1..]);
        ShapeAfterCopy(s, FillGuaranteed(s[1..]), CopiedPrefix(s[1..]));
      }
    }
  }

  /** The placeholder text begins with `pr`. */
  lemma FilledStartsPr(t: string)
    ensures var out := FilledGuaranteed() + t; 1 < |out| && out[0] == 'p' && out[1] == 'r'
  {
    assert FilledGuaranteed()[..2] == "pr";
  }

  /** Copying one more character in front keeps the shape of
      `FillGuaranteedShape`, one position on. */
  lemma ShapeAfterCopy(s: string, t: string, m: nat)
    requires s != [] && m <= |s| - 1
    requires t == s[1..] || (m + 1 < |t| && t[..m] == s[1..][..m] && t[m] == 'p' && t[m + 1] == 'r')
    ensures var out := [s[0]] + t;
      || out == s
      || (m + 2 < |out| && out[..m + 1] == s[..m + 1] && out[m + 1] == 'p' && out[m + 2] == 'r')
  {
    var out := [s[0]] + t;
    if t == s[1..] {
      assert out == s;
    } else {
      assert out[..m + 1] == [s[0]] + t[..m] == [s[0]] + s[1..][..m] == s[..m + 1];
    }
  }

  /** A character `re.sub` copies cannot begin a match in the output: the
      placeholder's first characters `pr` break both the key and the
      quotes. */
  lemma KeptFirstChar(s: string)
    requires s != [] && EmptyGuaranteedEnd(s, 0).None?
    ensures EmptyGuaranteedEnd([s[0]] + FillGuaranteed(s[1..]), 0).None?
  {
    var u := s[1..];
    var x := [s[0]] + FillGuaranteed(u);
    FillGuaranteedShape(u);
    if FillGuaranteed(u) == u {
      assert x == s;
    } else {
      var n := CopiedPrefix(u) + 1;
      assert x[..n] == [s[0]] + FillGuaranteed(u)[..n - 1] == [s[0]] + u[..n - 1] == s[..n];
      if n < 19 {
        KeyBrokenAt(x, n);
      } else {
        QuotesBrokenAt(s, n, x);
      }
    }
  }

  /** `re.sub` leaves no empty `proposedGuaranteed` behind: every match is
      replaced, and neither the placeholder nor its joins with the copied
      text form a new one. */
  lemma {:induction false} FillGuaranteedComplete(s: string)
    ensures NoEmptyGuaranteed(FillGuaranteed(s))
    decreases |s|
  {
    if s != [] {
      match EmptyGuaranteedEnd(s, 0)
      case Some(j) =>
        var t := FillGuaranteed(s[j..]);
        FillGuaranteedComplete(s[j..]);
        var out := FilledGuaranteed() + t;
        forall i | 0 <= i <= |out| ensures EmptyGuaranteedEnd(out, i).None? {
          if i < |FilledGuaranteed()| {
            FilledHoldsNoMatch(t, i);
          } else {
            MatchInSuffix(FilledGuaranteed(), t, i);
          }
        }
      case None =>
        var t := FillGuaranteed(s[1..]);
        FillGuaranteedComplete(s[1..]);
        var out := [s[0]] + t;
        forall i | 0 <= i <= |out| ensures EmptyGuaranteedEnd(out, i).None? {
          if i == 0 {
            KeptFirstChar(s);
          } else {
            MatchInSuffix([s[0]], t, i);
          }
        }
    }
  }

  // ---------------------------------------------------------------------
  // One line
  // ---------------------------------------------------------------------

  /** The loop body of lines 23-50 applied to one line. */
  function RewriteLine(line: string): string {
    if Qualifies(line) then FillGuaranteed(MoveDescription(line)) else line
  }

  /** Lines 25-27 and 30: comment lines, header rows and non-data lines are
      emitted unchanged. */
  lemma PassThrough(line: string)
    ensures IsCommentOrHeader(line) ==> RewriteLine(line) == line
    ensures !IsDataLine(line) ==> RewriteLine(line) == line
    ensures Contains(line, "-0\"") ==> RewriteLine(line) == line
  {
  }

  /** When either search fails, or the condition does not hold, no move
      happens (lines 35 and 41). */
  lemma NoMoveWithoutMatches(line: string)
    requires SearchField(line, DescriptionKey).None? || SearchField(line, RequiredKey).None? ||
             !MoveCondition(SearchField(line, DescriptionKey).value, SearchField(line, RequiredKey).value)
    ensures MoveDescription(line) == line
  {
  }

  /** An all-digit `required` with an empty description is moved: the
      description replace is a no-op and `required: "<digits>"` becomes
      `required: ""` everywhere. */
  lemma DigitsMoveWithEmptyDescription(line: string, req: string)
    requires SearchField(line, DescriptionKey) == Some("")
    requires SearchField(line, RequiredKey) == Some(req) && IsDigitString(req)
    ensures MoveDescription(line) == ReplaceAll(line, Literal(RequiredKey, req), Literal(RequiredKey, ""))
  {
    ReplaceAllSelf(line, Literal(DescriptionKey, ""));
  }

  /** "No" with an empty description is not moved, so only line 48 can
      change such a data line. */
  lemma NoWithEmptyDescriptionStays(line: string)
    requires Qualifies(line)
    requires SearchField(line, DescriptionKey) == Some("")
    requires SearchField(line, RequiredKey) == Some("No")
    ensures RewriteLine(line) == FillGuaranteed(line)
  {
    MoveConditionCases("", "No");
  }

  /** When the literal with one space is absent (the value was written with
      other spacing), the move silently does nothing. */
  lemma MoveNeedsSingleSpaceLiteral(line: string)
    requires SearchField(line, DescriptionKey).Some? && SearchField(line, RequiredKey).Some?
    requires !Contains(line, Literal(DescriptionKey, SearchField(line, DescriptionKey).value))
    requires !Contains(line, Literal(RequiredKey, SearchField(line, RequiredKey).value))
    ensures MoveDescription(line) == line
  {
    var d := SearchField(line, DescriptionKey).value;
    var q := SearchField(line, RequiredKey).value;
    if MoveCondition(d, q) {
      ReplaceAllAbsent(line, Literal(DescriptionKey, d), Literal(DescriptionKey, ""));
      ReplaceAllAbsent(line, Literal(RequiredKey, q), Literal(RequiredKey, d));
    }
  }

  /** A data line with an empty (or missing) description, a `required` that
      is not all digits and no empty `proposedGuaranteed` is a fixed point,
      so running the script again leaves it alone. */
  lemma SettledLineUnchanged(line: string)
    requires SearchField(line, DescriptionKey).None? || SearchField(line, DescriptionKey) == Some("")
    requires SearchField(line, RequiredKey).None? || !IsDigitString(SearchField(line, RequiredKey).value)
    requires NoEmptyGuaranteed(line)
    ensures RewriteLine(line) == line
  {
    FillGuaranteedNoMatch(line);
  }

  // ---------------------------------------------------------------------
  // Running the script twice
  // ---------------------------------------------------------------------

  /** A made-up line that qualifies as a data line: a description, a
      `unit:` key, a `required` value and a bare `proposedGuaranteed:` key.
      It is not the full layout of the seed file's rows, which also carry
      braces, an id, a unit value and the other fields. */
  function SampleLine(desc: string, req: string): string {
    Literal(DescriptionKey, desc) + " unit: " + Literal(RequiredKey, req) + " " + GuaranteedKey
  }

  /** Values made of digits, "Yes" or "No" hold none of the characters the
      proofs below look for. */
  predicate PlainValue(v: string) {
    AllDigits(v) || v == "Yes" || v == "No"
  }

  lemma PlainValueChars(v: string)
    requires PlainValue(v)
    ensures '"' !in v && 'q' !in v && 'c' !in v && 'G' !in v && '-' !in v && 'd' !in v
  {
    if AllDigits(v) {
      forall k | 0 <= k < |v| ensures v[k] !in "\"qcG-d" {
        assert IsAsciiDigit(v[k]);
      }
    }
  }

  /** A pattern with a character the text lacks does not occur in it. */
  lemma AbsentCharNotContained(s: string, pat: string, k: nat)
    requires k < |pat| && pat[k] !in s
    ensures !Contains(s, pat)
  {
    forall i | 0 <= i <= |s| - |pat| ensures !OccursAt(s, pat, i) {
      assert s[i..i + |pat|][k] == s[i + k];
    }
  }

  /** A pattern whose `k`-th character is absent from `p` and the first `k`
      characters of `t` starts nowhere inside `p`. */
  lemma NoOccurrenceBefore(p: string, t: string, pat: string, k: nat)
    requires k < |pat| && k <= |t| && pat[k] !in p + t[..k]
    ensures forall i :: 0 <= i < |p| ==> !OccursAt(p + t, pat, i)
  {
    var s := p + t;
    forall i | 0 <= i < |p| ensures !OccursAt(s, pat, i) {
      if i + |pat| <= |s| {
        assert s[i..i + |pat|][k] == s[i + k] == (p + t[..k])[i + k];
      }
    }
  }

  /** The search finds the group at `m` when the key starts nowhere before. */
  lemma {:induction false} SearchFieldFromFinds(s: string, key: string, i: nat, m: nat, v: string)
    requires i <= m <= |s| && FieldAt(s, key, m) == Some(v)
    requires forall j :: i <= j < m ==> !OccursAt(s, key, j)
    ensures SearchFieldFrom(s, key, i) == Some(v)
    decreases m - i
  {
    if i < m {
      SearchFieldFromFinds(s, key, i + 1, m, v);
    }
  }

  /** A line ending in a bare `proposedGuaranteed:` key, with no other key
      before it, holds no empty `proposedGuaranteed`. */
  lemma NoEmptyGuaranteedAtKeyEnd(p: string)
    requires 'G' !in p + "proposed"
    ensures NoEmptyGuaranteed(p + GuaranteedKey)
  {
    var s := p + GuaranteedKey;
    assert GuaranteedKey[..8] == "proposed" && GuaranteedKey[8] == 'G';
    NoOccurrenceBefore(p, GuaranteedKey, GuaranteedKey, 8);
    forall i | 0 <= i <= |s| ensures EmptyGuaranteedEnd(s, i).None? {
      if i == |p| {
        assert SkipSpaces(s, |s|) == |s|;
      }
    }
  }

  /** The sample line is a data line the loop body rewrites. */
  lemma SampleQualifies(desc: string, req: string)
    requires PlainValue(desc) && PlainValue(req)
    ensures Qualifies(SampleLine(desc, req))
  {
    SampleNotComment(desc, req);
    SampleIsDataLine(desc, req);
  }

  /** The sample line starts with `d` and has no `-`: not a comment line and
      not a header row. */
  lemma SampleNotComment(desc: string, req: string)
    requires PlainValue(desc) && PlainValue(req)
    ensures !IsCommentOrHeader(SampleLine(desc, req))
  {
    var line := SampleLine(desc, req);
    SampleEnds(desc, req);
    StripUnpadded(line);
    PlainValueChars(desc);
    PlainValueChars(req);
    assert '-' !in line;
    AbsentCharNotContained(line, "-0\"", 0);
  }

  /** The sample line starts with `d` and ends with `:`. */
  lemma SampleEnds(desc: string, req: string)
    ensures var line := SampleLine(desc, req); line != [] && line[0] == 'd' && line[|line| - 1] == ':'
  {
  }

  /** `strip()` leaves text that neither starts nor ends with whitespace as
      it is. */
  lemma StripUnpadded(s: string)
    requires s != [] && !IsSpace(s[0]) && !IsSpace(s[|s| - 1])
    ensures Strip(s) == s
  {
    assert LStrip(s) == s;
  }

  /** The sample line holds `unit:`, `required:` and `proposedGuaranteed:`. */
  lemma SampleIsDataLine(desc: string, req: string)
    ensures IsDataLine(SampleLine(desc, req))
  {
    var a, c := Literal(DescriptionKey, desc), Literal(RequiredKey, req);
    var line := SampleLine(desc, req);
    assert line[|a| + 1..|a| + 6] == "unit:";
    assert OccursAt(line, "unit:", |a| + 1);
    assert line[|a| + 7..|a| + 7 + |RequiredKey|] == RequiredKey;
    assert OccursAt(line, RequiredKey, |a| + 7);
    assert line[|a| + 8 + |c|..] == GuaranteedKey;
    assert OccursAt(line, GuaranteedKey, |a| + 8 + |c|);
  }

  /** The sample line cut before its `required` literal. */
  lemma SampleSplitAtRequired(desc: string, req: string)
    ensures var p, c, e := Literal(DescriptionKey, desc) + " unit: ", Literal(RequiredKey, req), " " + GuaranteedKey;
      && SampleLine(desc, req) == p + (c + e)
      && SampleLine(desc, req) == p + c + e
      && (c + e)[..2] == "re"
  {
  }

  /** The sample line cut after its description literal. */
  lemma SampleSplitAtDescription(desc: string, req: string)
    ensures SampleLine(desc, req) ==
            [] + Literal(DescriptionKey, desc) + (" unit: " + Literal(RequiredKey, req) + " " + GuaranteedKey)
  {
  }

  /** The two searches on the sample line find its description and its
      `required` value. */
  lemma SampleSearches(desc: string, req: string)
    requires PlainValue(desc) && PlainValue(req)
    ensures SearchField(SampleLine(desc, req), DescriptionKey) == Some(desc)
    ensures SearchField(SampleLine(desc, req), RequiredKey) == Some(req)
  {
    PlainValueChars(desc);
    PlainValueChars(req);
    var a := Literal(DescriptionKey, desc);
    var line := SampleLine(desc, req);
    assert FieldText(DescriptionKey, " ", desc) == a && line == a + line[|a|..];
    FieldAtOfMatch(line, DescriptionKey, 0, " ", desc);
    SampleFindsRequired(desc, req);
  }

  /** The `required` search skips the description: the key's `q` occurs
      nowhere before it. */
  lemma SampleFindsRequired(desc: string, req: string)
    requires '"' !in req && 'q' !in desc
    ensures SearchField(SampleLine(desc, req), RequiredKey) == Some(req)
  {
    var p := Literal(DescriptionKey, desc) + " unit: ";
    SampleRequiredAt(desc, req);
    SampleNoRequiredBefore(desc, req);
    SearchFieldFromFinds(SampleLine(desc, req), RequiredKey, 0, |p|, req);
  }

  /** The `required` field of the sample line, read where it starts. */
  lemma SampleRequiredAt(desc: string, req: string)
    requires '"' !in req
    ensures var p := Literal(DescriptionKey, desc) + " unit: ";
      |p| <= |SampleLine(desc, req)| && FieldAt(SampleLine(desc, req), RequiredKey, |p|) == Some(req)
  {
    SampleSplitAtRequired(desc, req);
    var c := Literal(RequiredKey, req);
    var p, t := Literal(DescriptionKey, desc) + " unit: ", c + " " + GuaranteedKey;
    var line := SampleLine(desc, req);
    assert line[|p|..] == t && t[..|c|] == c;
    assert FieldText(RequiredKey, " ", req) == c;
    FieldAtOfMatch(line, RequiredKey, |p|, " ", req);
  }

  /** No `required:` starts before the sample line's `required` literal. */
  lemma SampleNoRequiredBefore(desc: string, req: string)
    requires 'q' !in desc
    ensures var p := Literal(DescriptionKey, desc) + " unit: ";
      forall j :: 0 <= j < |p| ==> !OccursAt(SampleLine(desc, req), RequiredKey, j)
  {
    SampleSplitAtRequired(desc, req);
    var c := Literal(RequiredKey, req);
    var p, t := Literal(DescriptionKey, desc) + " unit: ", c + " " + GuaranteedKey;
    assert RequiredKey[2] == 'q' && 'q' !in p + "re";
    NoOccurrenceBefore(p, t, RequiredKey, 2);
  }

  /** Line 43 on the sample line: the description literal becomes
      `description: ""`. */
  lemma SampleClearsDescription(desc: string, req: string)
    requires 'c' !in req
    ensures ReplaceAll(SampleLine(desc, req), Literal(DescriptionKey, desc), Literal(DescriptionKey, ""))
            == SampleLine("", req)
  {
    SampleSplitAtDescription(desc, req);
    SampleSplitAtDescription("", req);
    var a, a0 := Literal(DescriptionKey, desc), Literal(DescriptionKey, "");
    var r := " unit: " + Literal(RequiredKey, req) + " " + GuaranteedKey;
    assert a[3] == 'c' && 'c' !in r;
    ReplaceAllStep([], r, a, a0);
    AbsentCharNotContained(r, a, 3);
    ReplaceAllAbsent(r, a, a0);
  }

  /** Line 45 on the sample line with an empty description: the `required`
      literal becomes `required: "<desc>"`. */
  lemma SampleMovesRequired(desc: string, req: string)
    ensures ReplaceAll(SampleLine("", req), Literal(RequiredKey, req), Literal(RequiredKey, desc))
            == SampleLine("", desc)
  {
    SampleSplitAtRequired("", req);
    SampleSplitAtRequired("", desc);
    var c, c1 := Literal(RequiredKey, req), Literal(RequiredKey, desc);
    var p, e := Literal(DescriptionKey, "") + " unit: ", " " + GuaranteedKey;
    assert c[2] == 'q' && 'q' !in p + "re" && 'q' !in e;
    NoOccurrenceBefore(p, c + e, c, 2);
    ReplaceAllStep(p, e, c, c1);
    AbsentCharNotContained(e, c, 2);
    ReplaceAllAbsent(e, c, c1);
  }

  /** The sample line has no empty `proposedGuaranteed`, so line 48 leaves
      it alone. */
  lemma SampleNotFilled(desc: string, req: string)
    requires 'G' !in desc && 'G' !in req
    ensures FillGuaranteed(SampleLine(desc, req)) == SampleLine(desc, req)
  {
    var p := Literal(DescriptionKey, desc) + " unit: " + Literal(RequiredKey, req) + " ";
    assert 'G' !in p + "proposed";
    assert SampleLine(desc, req) == p + GuaranteedKey;
    NoEmptyGuaranteedAtKeyEnd(p);
    FillGuaranteedNoMatch(SampleLine(desc, req));
  }

  /** On the sample line, when the move condition holds, the rewrite leaves
      the description empty and `required` holding the old description:
      the description is not copied, it is moved. */
  lemma RewriteSample(desc: string, req: string)
    requires PlainValue(desc) && PlainValue(req) && MoveCondition(desc, req)
    ensures RewriteLine(SampleLine(desc, req)) == SampleLine("", desc)
  {
    PlainValueChars(desc);
    PlainValueChars(req);
    SampleQualifies(desc, req);
    SampleSearches(desc, req);
    SampleClearsDescription(desc, req);
    SampleMovesRequired(desc, req);
    SampleNotFilled("", desc);
  }

  /** The script is not idempotent: a description "5" with `required` "Yes"
      moves into `required`, and on a second run the now all-digit
      `required` with an empty description moves again, emptying it. */
  lemma RewriteNotIdempotent()
    ensures RewriteLine(SampleLine("5", "Yes")) == SampleLine("", "5")
    ensures RewriteLine(SampleLine("", "5")) == SampleLine("", "")
    ensures RewriteLine(RewriteLine(SampleLine("5", "Yes"))) != RewriteLine(SampleLine("5", "Yes"))
  {
    assert AllDigits("5") && IsDigitString("5");
    RewriteSample("5", "Yes");
    RewriteSample("", "5");
    assert |SampleLine("", "")| != |SampleLine("", "5")|;
  }

  // ---------------------------------------------------------------------
  // The document: split on '\n', rewrite, join with '\n'
  // ---------------------------------------------------------------------

  /** Python `content.split('\n')`: always at least one piece, and no piece
      contains a newline. */
  function Split(s: string): (lines: seq<string>)
    ensures |lines| >= 1
    ensures forall k :: 0 <= k < |lines| ==> '\n' !in lines[k]
  {
    if s == [] then [""]
    else
      var rest := Split(s[1..]);
      if s[0] == '\n' then [""] + rest else [[s[0]] + rest[0]] + rest[1..]
  }

  /** Python `'\n'.join(lines)`. */
  function Join(lines: seq<string>): string {
    if lines == [] then ""
    else if |lines| == 1 then lines[0]
    else lines[0] + "\n" + Join(lines[1..])
  }

  /** Joining the pieces of a split gives the text back (lines 20 and 54
      lose nothing). */
  lemma {:induction false} JoinSplit(s: string)
    ensures Join(Split(s)) == s
  {
    if s != [] {
      var rest := Split(s[1..]);
      JoinSplit(s[1..]);
      if s[0] == '\n' {
        assert Split(s) == [""] + rest;
        assert Split(s)[1..] == rest;
      } else {
        var lines := Split(s);
        assert lines[1..] == rest[1..];
        if |rest| > 1 {
          assert Join(rest) == rest[0] + "\n" + Join(rest[1..]);
        }
      }
      assert s == [s[0]] + s[1..];
    }
  }

  /** Splitting a newline-free text prefixed to "\n" + more. */
  lemma {:induction false} SplitAfterLine(a: string, b: string)
    requires '\n' !in a
    ensures Split(a + "\n" + b) == [a] + Split(b)
    decreases |a|
  {
    if a == [] {
      assert a + "\n" + b == ['\n'] + b;
      assert (['\n'] + b)[1..] == b;
    } else {
      SplitAfterLine(a[1..], b);
      assert (a + "\n" + b)[1..] == a[1..] + "\n" + b;
      assert a == [a[0]] + a[1..];
    }
  }

  /** A text without newlines is one piece. */
  lemma {:induction false} SplitSingle(a: string)
    requires '\n' !in a
    ensures Split(a) == [a]
    decreases |a|
  {
    if a != [] {
      SplitSingle(a[1..]);
      assert a == [a[0]] + a[1..];
    }
  }

  /** Splitting what was joined gives the lines back, provided no line holds
      a newline. */
  lemma {:induction false} SplitJoin(lines: seq<string>)
    requires |lines| >= 1
    requires forall k :: 0 <= k < |lines| ==> '\n' !in lines[k]
    ensures Split(Join(lines)) == lines
  {
    if |lines| == 1 {
      SplitSingle(lines[0]);
    } else {
      SplitJoin(lines[1..]);
      SplitAfterLine(lines[0], Join(lines[1..]));
      assert lines == [lines[0]] + lines[1..];
    }
  }

  /** The whole script as a function of the file's content. */
  function RewriteContent(content: string): string {
    Join(RewriteLines(Split(content)))
  }

  /** The rewritten lines, one per input line. */
  function RewriteLines(lines: seq<string>): (r: seq<string>)
    ensures |r| == |lines|
    ensures forall k :: 0 <= k < |lines| ==> r[k] == RewriteLine(lines[k])
  {
    seq(|lines|, k requires 0 <= k < |lines| => RewriteLine(lines[k]))
  }

  /** `replace` with newline-free arguments keeps a text newline-free. */
  lemma {:induction false} ReplaceAllNoNewline(s: string, pat: string, rep: string)
    requires |pat| > 0 && '\n' !in s && '\n' !in rep
    ensures '\n' !in ReplaceAll(s, pat, rep)
    decreases |s|
  {
    if |s| >= |pat| {
      if s[..|pat|] == pat {
        ReplaceAllNoNewline(s[|pat|..], pat, rep);
      } else {
        ReplaceAllNoNewline(s[1..], pat, rep);
      }
    }
  }

  /** Filling `proposedGuaranteed` keeps a text newline-free. */
  lemma {:induction false} FillGuaranteedNoNewline(s: string)
    requires '\n' !in s
    ensures '\n' !in FillGuaranteed(s)
    decreases |s|
  {
    if s != [] {
      match EmptyGuaranteedEnd(s, 0)
      case Some(j) =>
        FillGuaranteedNoNewline(s[j..]);
      case None =>
        FillGuaranteedNoNewline(s[1..]);
    }
  }

  /** A captured value is a piece of the line, so it holds no newline when
      the line holds none. */
  lemma FieldAtNoNewline(s: string, key: string, i: nat)
    requires i <= |s| && '\n' !in s && FieldAt(s, key, i).Some?
    ensures '\n' !in FieldAt(s, key, i).value
  {
    var j := SkipSpaces(s, i + |key|);
    var k := QuoteFrom(s, j + 1).value;
    var v := s[j + 1..k];
    forall x | 0 <= x < |v| ensures v[x] != '\n' {
      assert v[x] == s[j + 1 + x];
    }
  }

  /** The same for the leftmost search from `i`. */
  lemma {:induction false} SearchFieldFromNoNewline(s: string, key: string, i: nat)
    requires i <= |s| && '\n' !in s && SearchFieldFrom(s, key, i).Some?
    ensures '\n' !in SearchFieldFrom(s, key, i).value
    decreases |s| - i
  {
    if FieldAt(s, key, i).Some? {
      FieldAtNoNewline(s, key, i);
    } else {
      SearchFieldFromNoNewline(s, key, i + 1);
    }
  }

  lemma SearchFieldNoNewline(line: string, key: string)
    requires '\n' !in line && SearchField(line, key).Some?
    ensures '\n' !in SearchField(line, key).value
  {
    SearchFieldFromNoNewline(line, key, 0);
  }

  /** Moving the description keeps a line newline-free. */
  lemma MoveDescriptionNoNewline(line: string)
    requires '\n' !in line
    ensures '\n' !in MoveDescription(line)
  {
    var d := SearchField(line, DescriptionKey);
    var q := SearchField(line, RequiredKey);
    if d.Some? && q.Some? && MoveCondition(d.value, q.value) {
      SearchFieldNoNewline(line, DescriptionKey);
      var cleared := ReplaceAll(line, Literal(DescriptionKey, d.value), Literal(DescriptionKey, ""));
      ReplaceAllNoNewline(line, Literal(DescriptionKey, d.value), Literal(DescriptionKey, ""));
      ReplaceAllNoNewline(cleared, Literal(RequiredKey, q.value), Literal(RequiredKey, d.value));
    }
  }

  /** A rewritten line never gains a newline: every value spliced in comes
      from the line itself or is the placeholder. */
  lemma RewriteLineNoNewline(line: string)
    requires '\n' !in line
    ensures '\n' !in RewriteLine(line)
  {
    if Qualifies(line) {
      MoveDescriptionNoNewline(line);
      FillGuaranteedNoNewline(MoveDescription(line));
    }
  }

  /** The output has exactly as many lines as the input, and line k of the
      output is line k of the input rewritten on its own. */
  lemma LineCountPreserved(content: string)
    ensures Split(RewriteContent(content)) == RewriteLines(Split(content))
    ensures |Split(RewriteContent(content))| == |Split(content)|
  {
    var lines := Split(content);
    var out := RewriteLines(lines);
    forall k | 0 <= k < |out| ensures '\n' !in out[k] {
      RewriteLineNoNewline(lines[k]);
    }
    SplitJoin(out);
  }

  /** If no line qualifies, the output is the (newline-decoded) input, unchanged. */
  lemma NothingQualifiesUnchanged(content: string)
    requires forall k :: 0 <= k < |Split(content)| ==> !Qualifies(Split(content)[k])
    ensures RewriteContent(content) == content
  {
    assert RewriteLines(Split(content)) == Split(content);
    JoinSplit(content);
  }

  /** The body of the loop (lines 24-50): a qualifying line has its
      description moved and its `proposedGuaranteed` filled. */
  method FixLine(line: string) returns (r: string)
    ensures r == RewriteLine(line)
  {
    r := line;
    if Qualifies(line) {
      r := MoveDescription(r);
      r := FillGuaranteed(r);
    }
  }

  /** A list of lines that rewrites `lines` pointwise is `RewriteLines(lines)`. */
  lemma RewriteLinesAre(lines: seq<string>, out: seq<string>)
    requires |out| == |lines|
    requires forall k :: 0 <= k < |lines| ==> out[k] == RewriteLine(lines[k])
    ensures out == RewriteLines(lines)
  {
  }

  /** Appending the rewrite of the next line extends a rewritten prefix. */
  lemma RewrittenPrefixGrows(lines: seq<string>, done: seq<string>, line: string)
    requires |done| < |lines| && line == RewriteLine(lines[|done|])
    requires forall k :: 0 <= k < |done| ==> done[k] == RewriteLine(lines[k])
    ensures forall k :: 0 <= k <= |done| ==> (done + [line])[k] == RewriteLine(lines[k])
  {
  }

  /** The script's loop (lines 20-54): split the content, append each
      rewritten line to `newLines`, and join them with '\n'. */
  method FixAvrData(content: string) returns (output: string)
    ensures output == RewriteContent(content)
  {
    var lines := Split(content);
    var newLines: seq<string> := [];
    var i := 0;
    while i < |lines|
      invariant 0 <= i <= |lines|
      invariant |newLines| == i
      invariant forall k :: 0 <= k < i ==> newLines[k] == RewriteLine(lines[k])
    {
      var line := FixLine(lines[i]);
      RewrittenPrefixGrows(lines, newLines, line);
      newLines := newLines + [line];
      i := i + 1;
    }
    RewriteLinesAre(lines, newLines);
    output := Join(newLines);
  }
}
