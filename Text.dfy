/**
 * The string operations the loader applies to text columns: Python's
 * `str.strip()`, `str.title()` and `str.split(sep)`, restricted to ASCII.
 */
module Text {

  /** Python's whitespace among the ASCII characters: \t \n \v \f \r, the
      four separators 0x1C..0x1F, and the space. */
  predicate IsSpace(c: char) {
    c == ' ' || ('\t' <= c <= '\r') || ('\U{1C}' <= c <= '\U{1F}')
  }

  predicate IsLower(c: char) { 'a' <= c <= 'z' }

  predicate IsUpper(c: char) { 'A' <= c <= 'Z' }

  /** The cased characters among the ASCII ones: the letters. */
  predicate IsLetter(c: char) { IsLower(c) || IsUpper(c) }

  function Upper(c: char): (u: char)
    ensures IsLetter(c) ==> IsUpper(u) && Lower(u) == Lower(c)
    ensures !IsLower(c) ==> u == c
  {
    if IsLower(c) then (c as int - 'a' as int + 'A' as int) as char else c
  }

  function Lower(c: char): (l: char)
    ensures IsLetter(c) ==> IsLower(l)
    ensures !IsUpper(c) ==> l == c
  {
    if IsUpper(c) then (c as int - 'A' as int + 'a' as int) as char else c
  }

  ghost predicate AllSpace(s: string) {
    forall k :: 0 <= k < |s| ==> IsSpace(s[k])
  }

  /** `t` has no whitespace at either end. */
  ghost predicate Stripped(t: string) {
    t == [] || (!IsSpace(t[0]) && !IsSpace(t[|t| - 1]))
  }

  /** `s` is `t` with the whitespace `s[..i]` before it and nothing but
      whitespace after it. */
  ghost predicate PaddedAt(s: string, t: string, i: nat) {
    i + |t| <= |s| && s[i..i + |t|] == t && AllSpace(s[..i]) && AllSpace(s[i + |t|..])
  }

  /** Python's `str.lstrip()`. */
  function StripStart(s: string): (r: string)
    ensures |r| <= |s| && r == s[|s| - |r|..]
    ensures AllSpace(s[..|s| - |r|])
    ensures r == [] || !IsSpace(r[0])
  {
    if s != [] && IsSpace(s[0]) then
      var r := StripStart(s[1..]);
      assert s[..|s| - |r|] == [s[0]] + s[1..][..|s| - 1 - |r|];
      r
    else s
  }

  /** Python's `str.rstrip()`. */
  function StripEnd(s: string): (r: string)
    ensures |r| <= |s| && r == s[..|r|]
    ensures AllSpace(s[|r|..])
    ensures r == [] || !IsSpace(r[|r| - 1])
  {
    if s != [] && IsSpace(s[|s| - 1]) then
      var r := StripEnd(s[..|s| - 1]);
      assert s[|r|..] == s[..|s| - 1][|r|..] + [s[|s| - 1]];
      r
    else s
  }

  /** Python's `str.strip()`. */
  function Strip(s: string): (r: string)
    ensures |r| <= |s|
  {
    StripEnd(StripStart(s))
  }

  /** The number of leading whitespace characters `Strip` removes. */
  function LeadingSpace(s: string): nat {
    |s| - |StripStart(s)|
  }

  /** `Strip` leaves no whitespace at either end and removes nothing but
      whitespace, and only from the ends. */
  lemma StripSpec(s: string)
    ensures Stripped(Strip(s))
    ensures PaddedAt(s, Strip(s), LeadingSpace(s))
  {
    var t := StripStart(s);
    var r := StripEnd(t);
    var i := |s| - |t|;
    assert r != [] ==> r[0] == t[0];
    assert s[i..i + |r|] == r;
    assert s[i + |r|..] == t[|r|..];
  }

  /** `StripStart` removes exactly a leading run of whitespace that ends at a
      non-whitespace character (or at the end). */
  lemma {:induction false} StripStartSkips(s: string, i: nat)
    requires i <= |s| && AllSpace(s[..i])
    requires i == |s| || !IsSpace(s[i])
    ensures StripStart(s) == s[i..]
  {
    if i > 0 {
      assert s[..i][0] == s[0];
      assert s[1..][..i - 1] == s[1..i];
      assert forall k :: 0 <= k < i - 1 ==> s[1..i][k] == s[..i][k + 1];
      StripStartSkips(s[1..], i - 1);
      assert s[1..][i - 1..] == s[i..];
    }
  }

  /** `StripEnd` removes exactly a trailing run of whitespace that starts
      after a non-whitespace character (or at the start). */
  lemma {:induction false} StripEndSkips(s: string, j: nat)
    requires j <= |s| && AllSpace(s[j..])
    requires j == 0 || !IsSpace(s[j - 1])
    ensures StripEnd(s) == s[..j]
  {
    if j < |s| {
      var n := |s|;
      assert s[j..][n - 1 - j] == s[n - 1];
      assert forall k :: 0 <= k < n - 1 - j ==> s[..n - 1][j..][k] == s[j..][k];
      StripEndSkips(s[..n - 1], j);
      assert s[..n - 1][..j] == s[..j];
    } else {
      assert s[..j] == s;
    }
  }

  /** The characterisation of `Strip` that does not mention how it is
      computed: whitespace around a text without whitespace at its ends is
      exactly what `Strip` removes. */
  lemma StripUnique(s: string, t: string, i: nat)
    requires Stripped(t) && PaddedAt(s, t, i)
    ensures Strip(s) == t
  {
    if t == [] {
      StripBlank(s, i);
    } else {
      StripAround(s, t, i);
    }
  }

  lemma StripBlank(s: string, i: nat)
    requires i <= |s| && AllSpace(s[..i]) && AllSpace(s[i..])
    ensures Strip(s) == []
  {
    assert AllSpace(s[..|s|]) by {
      forall k | 0 <= k < |s| ensures IsSpace(s[k]) {
        if k < i { assert s[..i][k] == s[k]; } else { assert s[i..][k - i] == s[k]; }
      }
    }
    StripStartSkips(s, |s|);
  }

  lemma StripAround(s: string, t: string, i: nat)
    requires t != [] && !IsSpace(t[0]) && !IsSpace(t[|t| - 1])
    requires i + |t| <= |s| && s[i..i + |t|] == t
    requires AllSpace(s[..i]) && AllSpace(s[i + |t|..])
    ensures Strip(s) == t
  {
    assert s[i] == t[0];
    StripStartSkips(s, i);
    var u := s[i..];
    assert u[|t|..] == s[i + |t|..];
    assert u[|t| - 1] == t[|t| - 1];
    StripEndSkips(u, |t|);
    assert u[..|t|] == t;
  }

  /** A text without whitespace at its ends is left alone. */
  lemma StripKeepsStripped(t: string)
    requires Stripped(t)
    ensures Strip(t) == t
  {
    assert t[..0] == [];
    StripStartSkips(t, 0);
    assert t[0..] == t && t[|t|..] == [];
    StripEndSkips(t, |t|);
  }

  lemma StripIdempotent(s: string)
    ensures Strip(Strip(s)) == Strip(s)
  {
    StripSpec(s);
    StripKeepsStripped(Strip(s));
  }

  /** Python's `str.title()` scanned left to right: a character that follows a
      cased character is lower-cased, any other one upper-cased. */
  function TitleFrom(s: string, afterLetter: bool): (r: string)
    ensures |r| == |s|
  {
    if s == [] then []
    else [if afterLetter then Lower(s[0]) else Upper(s[0])] + TitleFrom(s[1..], IsLetter(s[0]))
  }

  lemma {:induction false} TitleFromAt(s: string, afterLetter: bool, i: nat)
    requires i < |s|
    ensures TitleFrom(s, afterLetter)[i]
         == if (if i == 0 then afterLetter else IsLetter(s[i - 1])) then Lower(s[i]) else Upper(s[i])
  {
    if i > 0 {
      TitleFromAt(s[1..], IsLetter(s[0]), i - 1);
    }
  }

  /** Python's `str.title()` on ASCII text. */
  function Title(s: string): (r: string)
    ensures |r| == |s|
  {
    TitleFrom(s, false)
  }

  /** A letter that follows a letter is lower-cased, every other character
      upper-cased (which leaves non-letters as they are). */
  lemma TitleAt(s: string, i: nat)
    requires i < |s|
    ensures Title(s)[i] == if i > 0 && IsLetter(s[i - 1]) then Lower(s[i]) else Upper(s[i])
  {
    TitleFromAt(s, false, i);
  }

  /** Every word (maximal run of letters) of the result starts with an
      upper-case letter and goes on in lower case; other characters stay. */
  lemma TitleCasesWords(s: string, i: nat)
    requires i < |s|
    ensures IsLetter(s[i]) ==> if i > 0 && IsLetter(s[i - 1]) then IsLower(Title(s)[i]) else IsUpper(Title(s)[i])
    ensures !IsLetter(s[i]) ==> Title(s)[i] == s[i]
  {
    var c := s[i];
    TitleAt(s, i);
    assert !IsLetter(c) ==> Lower(c) == c && Upper(c) == c;
  }

  lemma TitleIdempotent(s: string)
    ensures Title(Title(s)) == Title(s)
  {
    var r := Title(s);
    var r2 := Title(r);
    forall i | 0 <= i < |s|
      ensures r2[i] == r[i]
    {
      if i > 0 {
        TitleCasesWords(s, i - 1);
        assert IsLetter(r[i - 1]) == IsLetter(s[i - 1]);
      }
      TitleCasesWords(s, i);
      var c := r[i];
      TitleAt(r, i);
      assert !IsLetter(c) ==> Lower(c) == c && Upper(c) == c;
    }
  }

  /** Title-casing keeps whitespace where it was, so it keeps a stripped text
      stripped. */
  lemma TitleKeepsStripped(s: string)
    requires Stripped(s)
    ensures Stripped(Title(s))
  {
    if s != [] {
      TitleCasesWords(s, 0);
      TitleCasesWords(s, |s| - 1);
    }
  }

  /** Python's `s.split(sep)`: the pieces of `s` between occurrences of `sep`. */
  function Split(s: string, sep: char): (parts: seq<string>)
    ensures |parts| >= 1
  {
    if s == [] then [""]
    else
      var rest := Split(s[1..], sep);
      if s[0] == sep then [""] + rest
      else [[s[0]] + rest[0]] + rest[1..]
  }

  /** No piece contains the separator. */
  lemma {:induction false} SplitPartsFree(s: string, sep: char)
    ensures forall j :: 0 <= j < |Split(s, sep)| ==> sep !in Split(s, sep)[j]
  {
    if s != [] {
      SplitPartsFree(s[1..], sep);
      var rest := Split(s[1..], sep);
      var parts := Split(s, sep);
      if s[0] == sep {
        assert forall j :: 1 <= j < |parts| ==> parts[j] == rest[j - 1];
      } else {
        assert forall j :: 1 <= j < |parts| ==> parts[j] == rest[j];
        assert sep !in rest[0];
        assert parts[0] == [s[0]] + rest[0];
      }
    }
  }

  /** A single piece is the whole text; the last piece is the text after the
      last separator, and it is shorter than the text when there are several
      pieces. */
  lemma {:induction false} SplitLast(s: string, sep: char)
    ensures var parts := Split(s, sep);
      && (|parts| == 1 ==> parts[0] == s)
      && var last := parts[|parts| - 1];
         |last| <= |s| && last == s[|s| - |last|..] && (|last| < |s| ==> s[|s| - |last| - 1] == sep)
         && (|parts| > 1 ==> |last| < |s|)
  {
    if s != [] {
      SplitLast(s[1..], sep);
      var rest := Split(s[1..], sep);
      var parts := Split(s, sep);
      var last := rest[|rest| - 1];
      if s[0] == sep {
        assert parts == [""] + rest;
        assert parts[|parts| - 1] == last;
        assert s[1..][|s| - 1 - |last|..] == s[|s| - |last|..];
        assert |last| < |s| - 1 ==> s[1..][|s| - 1 - |last| - 1] == s[|s| - |last| - 1];
      } else if |rest| == 1 {
        assert parts == [[s[0]] + rest[0]];
        assert parts[0] == [s[0]] + s[1..] == s;
      } else {
        assert parts == [[s[0]] + rest[0]] + rest[1..];
        assert parts[|parts| - 1] == last;
        assert s[1..][|s| - 1 - |last|..] == s[|s| - |last|..];
        assert |last| < |s| - 1 ==> s[1..][|s| - 1 - |last| - 1] == s[|s| - |last| - 1];
      }
    }
  }

  /** Python's `sep.join(parts)`. */
  function Join(parts: seq<string>, sep: char): string {
    if |parts| == 0 then ""
    else if |parts| == 1 then parts[0]
    else parts[0] + [sep] + Join(parts[1..], sep)
  }

  /** Gluing a character onto the first of several parts. */
  lemma JoinConsFirst(c: char, parts: seq<string>, sep: char)
    requires |parts| >= 1
    ensures Join([[c] + parts[0]] + parts[1..], sep) == [c] + Join(parts, sep)
  {
    var glued := [[c] + parts[0]] + parts[1..];
    if |parts| > 1 {
      assert glued[1..] == parts[1..];
    }
  }

  lemma {:induction false} JoinSplit(s: string, sep: char)
    ensures Join(Split(s, sep), sep) == s
  {
    if s != [] {
      var rest := Split(s[1..], sep);
      JoinSplit(s[1..], sep);
      if s[0] == sep {
        assert ([""] + rest)[1..] == rest;
        assert Join([""] + rest, sep) == [sep] + Join(rest, sep);
      } else {
        JoinConsFirst(s[0], rest, sep);
      }
      assert s == [s[0]] + s[1..];
    }
  }

  /** The region-code segment the loader keeps: the last piece of
      `s.split(sep)`. */
  function LastSegment(s: string, sep: char): string {
    var parts := Split(s, sep);
    parts[|parts| - 1]
  }

  /** `LastSegment` is the longest suffix of `s` free of `sep`: the whole of
      `s` when `sep` does not occur in it. */
  lemma LastSegmentSpec(s: string, sep: char)
    ensures var r := LastSegment(s, sep);
      && sep !in r
      && |r| <= |s| && r == s[|s| - |r|..]
      && (|r| < |s| ==> s[|s| - |r| - 1] == sep)
      && (sep !in s ==> r == s)
  {
    SplitPartsFree(s, sep);
    SplitLast(s, sep);
  }
}
