/** TOR numbers (`generateTorNumber` in `src/app/api/tor/route.ts`) and the
    bidang fallback of the TOR creation handler.

    A TOR number is `<slug>-<ddmmyyyy>-<ms>`: a slug of the title, the
    creation date with a zero-padded day and month, and the last six digits
    of the creation time in epoch milliseconds. The calendar fields come in
    as integers (what `getDate()`, `getMonth()` and `getFullYear()` return);
    time zones are not modelled. */
module TorNumber {
  import opened Wrappers
  import opened Text

  // ---------------------------------------------------------------------
  // toLowerCase
  // ---------------------------------------------------------------------

  /** `c.toLowerCase()` as far as the slug can tell. ASCII capitals become
      small letters. Two other characters lower-case to text holding an
      ASCII letter: U+0130 (capital I with dot) becomes "i" and a combining
      dot, and U+212A (Kelvin sign) becomes "k". Every other character is
      kept; its true lower case is outside `[a-z0-9]` as well, so the slug
      does not change. */
  function LowerChar(c: char): (r: string)
    ensures 'A' <= c <= 'Z' ==> r == [(c as int + 32) as char]
    ensures !('A' <= c <= 'Z') && c != 'İ' && c != 'K' ==> r == [c]
  {
    if 'A' <= c <= 'Z' then [(c as int + 32) as char]
    else if c == 'İ' then "i̇"
    else if c == 'K' then "k"
    else [c]
  }

  function Lower(s: string): string {
    if s == [] then [] else LowerChar(s[0]) + Lower(s[1..])
  }

  // ---------------------------------------------------------------------
  // replace(/[^a-z0-9]+/g, "-")
  // ---------------------------------------------------------------------

  predicate IsAlnum(c: char) {
    'a' <= c <= 'z' || '0' <= c <= '9'
  }

  predicate IsSlugChar(c: char) {
    IsAlnum(c) || c == '-'
  }

  /** Only small letters, digits and dashes. */
  predicate SlugChars(s: string) {
    forall k :: 0 <= k < |s| ==> IsSlugChar(s[k])
  }

  /** No two dashes stand next to each other. */
  predicate NoDoubleDash(s: string) {
    forall k :: 0 <= k < |s| - 1 ==> s[k] != '-' || s[k + 1] != '-'
  }

  /** The letters and digits of `s`, in order: what the slug keeps. */
  function AlnumOnly(s: string): string {
    if s == [] then []
    else (if IsAlnum(s[0]) then [s[0]] else []) + AlnumOnly(s[1..])
  }

  /** `s` without its leading run of characters outside `[a-z0-9]`. */
  function DropRun(s: string): (r: string)
    ensures |r| <= |s| && r == s[|s| - |r|..]
    ensures s != [] && !IsAlnum(s[0]) ==> |r| < |s|
    ensures r == [] || IsAlnum(r[0])
  {
    if s == [] || IsAlnum(s[0]) then s else DropRun(s[1..])
  }

  /** Every maximal run of characters outside `[a-z0-9]` becomes one dash. */
  function Collapse(s: string): string
    decreases |s|
  {
    if s == [] then []
    else if IsAlnum(s[0]) then [s[0]] + Collapse(s[1..])
    else "-" + Collapse(DropRun(s))
  }

  /** The run dropped by `DropRun` holds no letter or digit. */
  lemma {:induction false} DropRunKeepsAlnums(s: string)
    ensures AlnumOnly(DropRun(s)) == AlnumOnly(s)
  {
    if s != [] && !IsAlnum(s[0]) {
      DropRunKeepsAlnums(s[1..]);
    }
  }

  /** The collapsed text is made of letters, digits and single dashes, and
      starts with a dash only where the text starts with a run. */
  lemma {:induction false} CollapseShape(s: string)
    ensures SlugChars(Collapse(s)) && NoDoubleDash(Collapse(s))
    ensures Collapse(s) != [] && Collapse(s)[0] == '-' ==> s != [] && !IsAlnum(s[0])
    decreases |s|
  {
    if s != [] {
      var rest := if IsAlnum(s[0]) then s[1..] else DropRun(s);
      CollapseShape(rest);
      var c, r := Collapse(s), Collapse(rest);
      assert c == [c[0]] + r;
      assert IsSlugChar(c[0]);
      assert forall k :: 1 <= k < |c| ==> c[k] == r[k - 1];
      if !IsAlnum(s[0]) {
        assert r == [] || r[0] != '-';
      }
    }
  }

  /** Collapsing keeps the letters and digits, in order. */
  lemma {:induction false} CollapseKeepsAlnums(s: string)
    ensures AlnumOnly(Collapse(s)) == AlnumOnly(s)
    decreases |s|
  {
    if s != [] {
      if IsAlnum(s[0]) {
        CollapseKeepsAlnums(s[1..]);
        assert Collapse(s)[1..] == Collapse(s[1..]);
      } else {
        CollapseKeepsAlnums(DropRun(s));
        DropRunKeepsAlnums(s);
        assert Collapse(s)[1..] == Collapse(DropRun(s));
      }
    }
  }

  // ---------------------------------------------------------------------
  // replace(/^-+|-+$/g, "") and substring(0, 30)
  // ---------------------------------------------------------------------

  function DropLeadingDashes(s: string): (r: string)
    ensures |r| <= |s|
    ensures r == [] || r[0] != '-'
    ensures forall k :: 0 <= k < |s| - |r| ==> s[k] == '-'
    ensures (forall k :: 0 <= k < |s| ==> s[k] == '-') ==> r == []
  {
    if s != [] && s[0] == '-' then DropLeadingDashes(s[1..]) else s
  }

  /** What is left after the leading dashes is a suffix of the text. (A
      lemma rather than a postcondition: together with the prefix
      postcondition of `DropTrailingDashes` it would let the solver rewrite
      slices of slices without end.) */
  lemma {:induction false} DropLeadingIsSuffix(s: string)
    ensures DropLeadingDashes(s) == s[|s| - |DropLeadingDashes(s)|..]
    decreases |s|
  {
    if s != [] && s[0] == '-' {
      DropLeadingIsSuffix(s[1..]);
    }
  }

  function DropTrailingDashes(s: string): (r: string)
    ensures |r| <= |s| && r == s[..|r|]
    ensures r == [] || r[|r| - 1] != '-'
    ensures forall k :: |r| <= k < |s| ==> s[k] == '-'
  {
    if s != [] && s[|s| - 1] == '-' then DropTrailingDashes(s[..|s| - 1]) else s
  }

  /** Both edge runs of dashes removed. */
  function TrimDashes(s: string): string {
    DropTrailingDashes(DropLeadingDashes(s))
  }

  /** The title that is slugged: a falsy title (`undefined`, `null` or
      empty, here None or "") reads as "draft". */
  function TitleOrDraft(title: Option<string>): string {
    if title.None? || title.value == "" then "draft" else title.value
  }

  /** The slug of a title. */
  function Slug(title: Option<string>): string {
    SlugOf(TitleOrDraft(title))
  }

  /** The slug of a non-empty title text. */
  function SlugOf(t: string): string {
    Cut(TrimDashes(Collapse(Lower(t))))
  }

  /** `substring(0, 30)`. */
  function Cut(s: string): (r: string)
    ensures |r| <= 30 && |r| <= |s| && r == s[..|r|]
  {
    s[..Min(|s|, 30)]
  }

  function Min(a: int, b: int): int {
    if a <= b then a else b
  }

  /** The trimmed text is the slice of the text between its edge runs of
      dashes. */
  lemma TrimIsSlice(c: string) returns (i: nat)
    ensures i + |TrimDashes(c)| <= |c| && TrimDashes(c) == c[i..i + |TrimDashes(c)|]
    ensures forall k :: 0 <= k < i ==> c[k] == '-'
    ensures forall k :: i + |TrimDashes(c)| <= k < |c| ==> c[k] == '-'
  {
    var l := DropLeadingDashes(c);
    DropLeadingIsSuffix(c);
    i := |c| - |l|;
    var t := DropTrailingDashes(l);
    assert t == c[i..][..|t|];
    forall k | i + |t| <= k < |c| ensures c[k] == '-' {
      assert c[k] == l[k - i];
    }
  }

  /** Trimmed and cut to 30 characters, a text is still a slice of itself,
      and one that does not start with a dash. */
  lemma TrimCutIsSlice(c: string) returns (i: nat)
    ensures i + |Cut(TrimDashes(c))| <= |c|
    ensures Cut(TrimDashes(c)) == c[i..i + |Cut(TrimDashes(c))|]
    ensures Cut(TrimDashes(c)) == [] || Cut(TrimDashes(c))[0] != '-'
  {
    i := TrimIsSlice(c);
    var t := TrimDashes(c);
    var r := Cut(t);
    assert r == c[i..i + |r|] by {
      SliceOfSlice(c, i, t, 0, |r|);
      assert r == t[0..|r|];
    }
    assert r == [] || r[0] != '-' by {
      if r != [] {
        var l := DropLeadingDashes(c);
        DropLeadingIsSuffix(c);
        assert t == l[..|t|];
        assert r[0] == l[0];
      }
    }
  }

  /** A slice of a text of slug characters has only slug characters. */
  lemma SlugCharsSlice(s: string, i: nat, j: nat)
    requires SlugChars(s) && i <= j <= |s|
    ensures SlugChars(s[i..j])
  {
    forall k | 0 <= k < j - i ensures IsSlugChar(s[i..j][k]) {
      assert s[i..j][k] == s[i + k];
    }
  }

  /** A slice of a text without double dashes has none either. */
  lemma NoDoubleDashSlice(s: string, i: nat, j: nat)
    requires NoDoubleDash(s) && i <= j <= |s|
    ensures NoDoubleDash(s[i..j])
  {
    forall k | 0 <= k < j - i - 1 ensures s[i..j][k] != '-' || s[i..j][k + 1] != '-' {
      assert s[i..j][k] == s[i + k] && s[i..j][k + 1] == s[i + k + 1];
    }
  }

  /** Removing dashes from the edges keeps the letters and digits. */
  lemma {:induction false} AlnumOnlyEdges(s: string, i: nat, j: nat)
    requires i <= j <= |s|
    requires forall k :: 0 <= k < i ==> s[k] == '-'
    requires forall k :: j <= k < |s| ==> s[k] == '-'
    ensures AlnumOnly(s[i..j]) == AlnumOnly(s)
    decreases |s|
  {
    if i > 0 {
      assert s[1..][i - 1..j - 1] == s[i..j];
      AlnumOnlyEdges(s[1..], i - 1, j - 1);
    } else if j < |s| {
      var p := s[..|s| - 1];
      AlnumOnlySnoc(p, s[|s| - 1]);
      assert p + [s[|s| - 1]] == s;
      assert p[0..j] == s[i..j];
      AlnumOnlyEdges(p, 0, j);
    } else {
      assert s[i..j] == s;
    }
  }

  /** Appending one character appends it to the letters and digits when it
      is one. */
  lemma {:induction false} AlnumOnlySnoc(s: string, c: char)
    ensures AlnumOnly(s + [c]) == AlnumOnly(s) + (if IsAlnum(c) then [c] else [])
    decreases |s|
  {
    if s != [] {
      assert (s + [c])[1..] == s[1..] + [c];
      AlnumOnlySnoc(s[1..], c);
    }
  }

  /** The slug is made of small letters, digits and single dashes, is at
      most 30 characters long and does not start with a dash. */
  lemma SlugShape(title: Option<string>)
    ensures SlugChars(Slug(title)) && NoDoubleDash(Slug(title))
    ensures |Slug(title)| <= 30
    ensures Slug(title) == [] || Slug(title)[0] != '-'
  {
    SlugOfShape(TitleOrDraft(title));
  }

  lemma SlugOfShape(t: string)
    ensures SlugChars(SlugOf(t)) && NoDoubleDash(SlugOf(t))
    ensures |SlugOf(t)| <= 30
    ensures SlugOf(t) == [] || SlugOf(t)[0] != '-'
  {
    CollapseShape(Lower(t));
    TrimCutShape(Collapse(Lower(t)));
  }

  /** Trimming and cutting keep a text made of slug characters and single
      dashes so, and leave no leading dash. */
  lemma TrimCutShape(c: string)
    requires SlugChars(c) && NoDoubleDash(c)
    ensures SlugChars(Cut(TrimDashes(c))) && NoDoubleDash(Cut(TrimDashes(c)))
    ensures Cut(TrimDashes(c)) == [] || Cut(TrimDashes(c))[0] != '-'
  {
    var i := TrimCutIsSlice(c);
    var n := |Cut(TrimDashes(c))|;
    NoDoubleDashSlice(c, i, i + n);
    SlugCharsSlice(c, i, i + n);
  }

  /** The letters and digits of the slug are, in order, a prefix of those of
      the lower-cased title: the slug drops nothing else and adds nothing. */
  lemma SlugKeepsAlnums(t: string)
    ensures SlugOf(t) == TrimDashes(Collapse(Lower(t)))[..|SlugOf(t)|]
    ensures AlnumOnly(TrimDashes(Collapse(Lower(t)))) == AlnumOnly(Lower(t))
  {
    TrimKeepsAlnums(Collapse(Lower(t)));
    CollapseKeepsAlnums(Lower(t));
  }

  /** Trimming the edge dashes keeps the letters and digits. */
  lemma TrimKeepsAlnums(c: string)
    ensures AlnumOnly(TrimDashes(c)) == AlnumOnly(c)
  {
    var i := TrimIsSlice(c);
    AlnumOnlyEdges(c, i, i + |TrimDashes(c)|);
  }

  /** A text without letters or digits has only other characters. */
  lemma {:induction false} NoAlnums(s: string)
    requires AlnumOnly(s) == []
    ensures forall k :: 0 <= k < |s| ==> !IsAlnum(s[k])
  {
    if s != [] {
      NoAlnums(s[1..]);
      assert forall k :: 1 <= k < |s| ==> s[k] == s[1..][k - 1];
    }
  }

  /** A collapsed text without letters or digits trims to nothing. */
  lemma TrimOfDashes(c: string)
    requires SlugChars(c) && AlnumOnly(c) == []
    ensures Cut(TrimDashes(c)) == []
  {
    NoAlnums(c);
    assert forall k :: 0 <= k < |c| ==> c[k] == '-';
  }

  /** A title without letters or digits (after lower-casing) gives the empty
      slug. */
  lemma EmptySlug(title: string)
    requires title != "" && AlnumOnly(Lower(title)) == []
    ensures Slug(Some(title)) == ""
  {
    CollapseKeepsAlnums(Lower(title));
    CollapseShape(Lower(title));
    TrimOfDashes(Collapse(Lower(title)));
  }

  /** `undefined`, `null` and the empty title all give "draft". */
  lemma FalsyTitleIsDraft()
    ensures Slug(None) == "draft" && Slug(Some("")) == "draft"
  {
    assert AllAlnum("draft");
    WordTitleSlug(None, "draft");
    WordTitleSlug(Some(""), "draft");
  }

  lemma WordTitleSlug(title: Option<string>, w: string)
    requires TitleOrDraft(title) == w && AllAlnum(w) && |w| <= 30
    ensures Slug(title) == w
  {
    WordIsOwnSlug(w);
  }

  /** A word of at most 30 small letters and digits is its own slug. */
  lemma {:induction false} WordIsOwnSlug(w: string)
    requires AllAlnum(w) && |w| <= 30
    ensures SlugOf(w) == w
  {
    assert Lower(w) == w by { LowerKeepsSmall(w); }
    assert Collapse(w) == w by {
      CollapseAlnumPrefix(w, "");
      assert w + "" == w;
    }
    TrimWithoutEdgeDashes(w);
  }

  /** Letters and digits only. */
  predicate AllAlnum(s: string) {
    forall k :: 0 <= k < |s| ==> IsAlnum(s[k])
  }

  /** Truncation can leave a trailing dash: 29 letters or digits, a space
      and more letters or digits give the 29 characters and a dash. */
  lemma {:induction false} SlugMayEndInDash(a: string, b: string)
    requires |a| == 29 && AllAlnum(a) && b != [] && AllAlnum(b)
    ensures SlugOf(a + " " + b) == a + "-"
  {
    var t := a + " " + b;
    var c := a + "-" + b;
    LowerOfWords(a, b);
    CollapseOfWords(a, b);
    assert c[0] == a[0] && c[|c| - 1] == b[|b| - 1];
    TrimWithoutEdgeDashes(c);
    assert c[..30] == a + "-";
  }

  lemma {:induction false} LowerOfWords(a: string, b: string)
    requires AllAlnum(a) && AllAlnum(b)
    ensures Lower(a + " " + b) == a + " " + b
  {
    var t := a + " " + b;
    assert forall k :: 0 <= k < |t| ==> IsAlnum(t[k]) || t[k] == ' ';
    LowerKeepsSmall(t);
  }

  /** Two words with a space between collapse to the words with a dash. */
  lemma {:induction false} CollapseOfWords(a: string, b: string)
    requires AllAlnum(a) && AllAlnum(b)
    ensures Collapse(a + " " + b) == a + "-" + b
  {
    assert a + " " + b == a + (" " + b);
    CollapseAlnumPrefix(a, " " + b);
    assert (" " + b)[1..] == b;
    assert DropRun(" " + b) == b;
    CollapseAlnumPrefix(b, "");
    assert b + "" == b;
  }

  /** A text that neither starts nor ends with a dash is its own trim. */
  lemma {:induction false} TrimWithoutEdgeDashes(s: string)
    requires s == [] || (s[0] != '-' && s[|s| - 1] != '-')
    ensures TrimDashes(s) == s
  {
  }

  /** Small letters, digits and spaces are their own lower case. */
  lemma {:induction false} LowerKeepsSmall(s: string)
    requires forall k :: 0 <= k < |s| ==> IsAlnum(s[k]) || s[k] == ' '
    ensures Lower(s) == s
  {
    if s != [] {
      LowerKeepsSmall(s[1..]);
    }
  }

  /** A leading run of letters and digits passes through unchanged. */
  lemma {:induction false} CollapseAlnumPrefix(a: string, rest: string)
    requires AllAlnum(a)
    ensures Collapse(a + rest) == a + Collapse(rest)
  {
    if a != [] {
      var s := a + rest;
      assert s[0] == a[0] && IsAlnum(s[0]);
      assert s[1..] == a[1..] + rest;
      CollapseAlnumPrefix(a[1..], rest);
      assert Collapse(s) == [a[0]] + (a[1..] + Collapse(rest));
      assert a == [a[0]] + a[1..];
    } else {
      assert a + rest == rest;
    }
  }

  // ---------------------------------------------------------------------
  // The date and the millisecond suffix
  // ---------------------------------------------------------------------

  /** `String(day).padStart(2, "0") + String(monthIndex + 1).padStart(2, "0")
      + String(year)`. */
  function DateStr(day: int, monthIndex: int, year: int): string {
    PadStart(IntToString(day), 2, '0') + PadStart(IntToString(monthIndex + 1), 2, '0') + IntToString(year)
  }

  /** `String(epochMs).slice(-6)`. */
  function Suffix(epochMs: int): string {
    Last(IntToString(epochMs), 6)
  }

  /** The TOR number. */
  function GenerateTorNumber(title: Option<string>, day: int, monthIndex: int, year: int, epochMs: int): string {
    Slug(title) + "-" + DateStr(day, monthIndex, year) + "-" + Suffix(epochMs)
  }

  /** A two-digit field of a calendar date, read back. */
  lemma PaddedFieldValue(n: int)
    requires 1 <= n <= 99
    ensures var f := PadStart(IntToString(n), 2, '0');
      |f| == 2 && AllDigits(f) && DigitsValue(f) == n
  {
    NatToStringLength(n, 2);
    NatToStringValue(n);
    PadStartValue(NatToString(n), 2);
  }

  /** Reading eight characters back as dd, mm and yyyy. */
  function ReadDate(d: string): (int, int, int)
    requires |d| == 8
  {
    (DigitsValue(d[0..2]), DigitsValue(d[2..4]), DigitsValue(d[4..8]))
  }

  /** Eight characters made of two, two and four digits, read back. */
  lemma ReadDateOf(d: string, dd: string, mm: string, yyyy: string)
    requires d == dd + mm + yyyy && |dd| == 2 && |mm| == 2 && |yyyy| == 4
    requires AllDigits(dd) && AllDigits(mm) && AllDigits(yyyy)
    ensures |d| == 8 && AllDigits(d)
    ensures ReadDate(d) == (DigitsValue(dd), DigitsValue(mm), DigitsValue(yyyy))
  {
    assert d[0..2] == dd && d[2..4] == mm && d[4..8] == yyyy;
  }

  /** For a four-digit year the date is eight digits, and reading them back
      as dd, mm and yyyy gives the day, the month (counted from one) and the
      year. */
  lemma DateStrLayout(day: int, monthIndex: int, year: int)
    requires 1 <= day <= 31 && 0 <= monthIndex <= 11 && 1000 <= year <= 9999
    ensures |DateStr(day, monthIndex, year)| == 8 && AllDigits(DateStr(day, monthIndex, year))
    ensures ReadDate(DateStr(day, monthIndex, year)) == (day, monthIndex + 1, year)
  {
    var dd := PadStart(IntToString(day), 2, '0');
    var mm := PadStart(IntToString(monthIndex + 1), 2, '0');
    var yyyy := IntToString(year);
    assert |dd| == 2 && AllDigits(dd) && DigitsValue(dd) == day by { PaddedFieldValue(day); }
    assert |mm| == 2 && AllDigits(mm) && DigitsValue(mm) == monthIndex + 1 by {
      PaddedFieldValue(monthIndex + 1);
    }
    assert |yyyy| == 4 && AllDigits(yyyy) && DigitsValue(yyyy) == year by {
      NatToStringLength(year, 4);
      NatToStringLength(year, 3);
      NatToStringValue(year);
    }
    ReadDateOf(DateStr(day, monthIndex, year), dd, mm, yyyy);
  }

  /** The suffix is the epoch milliseconds modulo one million, in decimal;
      it has all six digits once the clock is past 100000 ms. */
  lemma SuffixValue(epochMs: int)
    requires epochMs >= 0
    ensures AllDigits(Suffix(epochMs)) && DigitsValue(Suffix(epochMs)) == epochMs % 1000000
    ensures epochMs >= 100000 ==> |Suffix(epochMs)| == 6
  {
    LastDigitsValue(epochMs, 6);
    assert Pow10(6) == 1000000;
    NatToStringLength(epochMs, 5);
    assert Pow10(5) == 100000;
  }

  /** The fields of a TOR number. */
  datatype TorFields = TorFields(slug: string, day: int, month: int, year: int, suffix: int)

  /** Reading a TOR number from the right: six suffix digits, a dash, eight
      date digits, a dash, and the slug before them. */
  function ReadTorNumber(n: string): Option<TorFields> {
    if |n| < 16 || n[|n| - 16] != '-' || n[|n| - 7] != '-' then None
    else
      var date := n[|n| - 15..|n| - 7];
      var suffix := n[|n| - 6..];
      if !AllDigits(date) || !AllDigits(suffix) then None
      else
        var (d, m, y) := ReadDate(date);
        Some(TorFields(n[..|n| - 16], d, m, y, DigitsValue(suffix)))
  }

  /** A slug, a dash, eight digits, a dash and six digits, read back. */
  lemma ReadTorNumberOf(n: string, slug: string, date: string, suffix: string)
    requires n == slug + "-" + date + "-" + suffix
    requires |date| == 8 && |suffix| == 6 && AllDigits(date) && AllDigits(suffix)
    ensures ReadTorNumber(n) == Some(TorFields(slug, ReadDate(date).0, ReadDate(date).1,
                                               ReadDate(date).2, DigitsValue(suffix)))
  {
    var k := |n|;
    assert n[k - 16] == '-' && n[k - 7] == '-';
    assert n[k - 15..k - 7] == date && n[k - 6..] == suffix && n[..k - 16] == slug;
  }

  /** Generating and then reading back a TOR number gives the slug, the
      day, the month, the year and the epoch milliseconds modulo one million,
      once the year has four digits and the clock is past 100000 ms. */
  lemma TorNumberRoundTrip(title: Option<string>, day: int, monthIndex: int, year: int, epochMs: int)
    requires 1 <= day <= 31 && 0 <= monthIndex <= 11 && 1000 <= year <= 9999
    requires epochMs >= 100000
    ensures ReadTorNumber(GenerateTorNumber(title, day, monthIndex, year, epochMs)) ==
              Some(TorFields(Slug(title), day, monthIndex + 1, year, epochMs % 1000000))
  {
    DateStrLayout(day, monthIndex, year);
    SuffixValue(epochMs);
    ReadTorNumberOf(GenerateTorNumber(title, day, monthIndex, year, epochMs),
                    Slug(title), DateStr(day, monthIndex, year), Suffix(epochMs));
  }

  // ---------------------------------------------------------------------
  // The bidang fallback of POST /api/tor
  // ---------------------------------------------------------------------

  /** What the handler does with the bidang: use one, or answer with an
      error status and message. */
  datatype BidangChoice = UseBidang(id: string) | Reject(status: int, message: string)

  /** `bidangId || user.position?.bidangId`, then the 400 answer when that
      is falsy. `requested` is the body's `bidangId` and `ofPosition` the
      creator position's (None for `undefined`/`null`, including a missing
      position). */
  function ChooseBidang(requested: Option<string>, ofPosition: Option<string>): BidangChoice {
    var chosen := if requested.Some? && requested.value != "" then requested else ofPosition;
    if chosen.None? || chosen.value == "" then Reject(400, "Bidang is required")
    else UseBidang(chosen.value)
  }

  /** The requested bidang wins when it is non-empty; the position's is the
      fallback; with neither, the request is rejected with 400. */
  lemma ChooseBidangCases(requested: Option<string>, ofPosition: Option<string>)
    ensures requested.Some? && requested.value != "" ==> ChooseBidang(requested, ofPosition) == UseBidang(requested.value)
    ensures (requested.None? || requested.value == "") && ofPosition.Some? && ofPosition.value != "" ==>
              ChooseBidang(requested, ofPosition) == UseBidang(ofPosition.value)
    ensures ChooseBidang(requested, ofPosition).Reject? <==>
              (requested.None? || requested.value == "") && (ofPosition.None? || ofPosition.value == "")
    ensures ChooseBidang(requested, ofPosition).Reject? ==>
              ChooseBidang(requested, ofPosition) == Reject(400, "Bidang is required")
    ensures ChooseBidang(requested, ofPosition).UseBidang? ==> ChooseBidang(requested, ofPosition).id != ""
  {
  }
}
