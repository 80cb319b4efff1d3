/** The Python `str` operations the backend relies on, over `seq<char>`.
    Case mappings and `isdigit` cover ASCII only; whitespace and line
    boundaries follow Python's own tables. */
module PyStr {

  /** `c.isspace()` */
  predicate IsSpace(c: char)
    ensures c == ' ' || c == '\t' || c == '\n' || c == '\r' ==> IsSpace(c)
    ensures IsSpace(c) ==> !IsDigitChar(c) && !IsAsciiLetter(c)
  {
    c == ' ' || '\t' <= c <= '\r' || '\U{1C}' <= c <= '\U{1F}' || c == '\U{85}' || c == '\U{A0}'
    || c == '\U{1680}' || '\U{2000}' <= c <= '\U{200A}' || c == '\U{2028}' || c == '\U{2029}'
    || c == '\U{202F}' || c == '\U{205F}' || c == '\U{3000}'
  }

  /** The characters at which `str.splitlines()` ends a line ("\r\n" counts once). */
  predicate IsLineBreak(c: char) {
    c == '\n' || c == '\r' || c == '\U{0B}' || c == '\U{0C}' || '\U{1C}' <= c <= '\U{1E}'
    || c == '\U{85}' || c == '\U{2028}' || c == '\U{2029}'
  }

  predicate IsDigitChar(c: char) { '0' <= c <= '9' }

  predicate IsAsciiLetter(c: char) { 'a' <= c <= 'z' || 'A' <= c <= 'Z' }

  /** `s.isdigit()` for ASCII digits: non-empty and digits only. */
  predicate IsDigit(s: string) {
    s != [] && forall i :: 0 <= i < |s| ==> IsDigitChar(s[i])
  }

  /** A string with no whitespace at either end. */
  predicate IsTrimmed(s: string) {
    s == [] || (!IsSpace(s[0]) && !IsSpace(s[|s| - 1]))
  }

  /** `s.lstrip()` */
  function LStrip(s: string): (r: string)
    ensures |r| <= |s| && r == s[|s| - |r|..]
    ensures r == [] || !IsSpace(r[0])
    ensures forall i :: 0 <= i < |s| - |r| ==> IsSpace(s[i])
  {
    if s != [] && IsSpace(s[0]) then LStrip(s[1..]) else s
  }

  /** `s.rstrip()` */
  function RStrip(s: string): (r: string)
    ensures |r| <= |s| && r == s[..|r|]
    ensures r == [] || !IsSpace(r[|r| - 1])
    ensures forall i :: |r| <= i < |s| ==> IsSpace(s[i])
  {
    if s != [] && IsSpace(s[|s| - 1]) then RStrip(s[..|s| - 1]) else s
  }

  /** `s.strip()` */
  function Strip(s: string): (r: string)
    ensures IsTrimmed(r)
    ensures |r| <= |s|
    ensures r == [] <==> forall i :: 0 <= i < |s| ==> IsSpace(s[i])
  {
    var l := LStrip(s);
    var r := RStrip(l);
    assert r != [] ==> r[0] == l[0];
    assert r == [] ==> l == [];
    r
  }

  /** `s.lstrip(chars)` */
  function LStripChars(s: string, chars: set<char>): (r: string)
    ensures |r| <= |s| && r == s[|s| - |r|..]
    ensures r == [] || r[0] !in chars
  {
    if s != [] && s[0] in chars then LStripChars(s[1..], chars) else s
  }

  /** The position of the first `c` in `s`, or `|s|` when there is none. */
  function IndexOf(s: string, c: char): (i: nat)
    ensures i <= |s|
    ensures i < |s| ==> s[i] == c
    ensures c !in s[..i]
  {
    if s == [] then 0 else if s[0] == c then 0 else 1 + IndexOf(s[1..], c)
  }

  /** The position of the first whitespace character in `s`, or `|s|`. */
  function IndexOfSpace(s: string): (i: nat)
    ensures i <= |s|
    ensures i < |s| ==> IsSpace(s[i])
    ensures forall j :: 0 <= j < i ==> !IsSpace(s[j])
  {
    if s == [] then 0 else if IsSpace(s[0]) then 0 else 1 + IndexOfSpace(s[1..])
  }

  /** `s.split(sep)` for a one-character separator. */
  function Split(s: string, sep: char): (parts: seq<string>)
    ensures |parts| >= 1
    ensures forall i :: 0 <= i < |parts| ==> sep !in parts[i]
    ensures |parts| > 1 ==> sep in s
  {
    if s == [] then [[]]
    else
      var rest := Split(s[1..], sep);
      if s[0] == sep then [[]] + rest else [[s[0]] + rest[0]] + rest[1..]
  }

  /** `s.split(sep, n)`: at most `n` splits, the remainder kept whole. */
  function SplitN(s: string, sep: char, n: nat): (parts: seq<string>)
    ensures 1 <= |parts| <= n + 1
    ensures forall i :: 0 <= i < |parts| - 1 ==> sep !in parts[i]
  {
    var i := IndexOf(s, sep);
    if n == 0 || i == |s| then [s] else [s[..i]] + SplitN(s[i + 1..], sep, n - 1)
  }

  /** `s.count(c)` for a single character. */
  function Count(s: string, c: char): (n: nat)
    ensures n <= |s|
    ensures n == 0 <==> c !in s
  {
    if s == [] then 0
    else
      assert c in s <==> s[0] == c || c in s[1..];
      (if s[0] == c then 1 else 0) + Count(s[1..], c)
  }

  /** Every occurrence of `c` after the first lies beyond it. */
  lemma {:induction false} CountAfterFirst(s: string, c: char)
    requires IndexOf(s, c) < |s|
    ensures Count(s, c) == 1 + Count(s[IndexOf(s, c) + 1..], c)
  {
    if s[0] != c {
      CountAfterFirst(s[1..], c);
      assert s[1..][IndexOf(s[1..], c) + 1..] == s[IndexOf(s, c) + 1..];
    }
  }

  function Min(a: int, b: int): int { if a < b then a else b }

  /** `s.split(sep, n)` yields one more part than the separators it consumes. */
  lemma {:induction false} SplitNParts(s: string, sep: char, n: nat)
    ensures |SplitN(s, sep, n)| == Min(Count(s, sep), n) + 1
    decreases n, 1
  {
    if n == 0 {
      assert SplitN(s, sep, n) == [s];
    } else if IndexOf(s, sep) == |s| {
      SplitNWhole(s, sep, n);
    } else {
      SplitNPartsStep(s, sep, n);
    }
  }

  lemma {:induction false} SplitNPartsStep(s: string, sep: char, n: nat)
    requires n > 0 && IndexOf(s, sep) < |s|
    ensures |SplitN(s, sep, n)| == Min(Count(s, sep), n) + 1
    decreases n, 0
  {
    var rest := s[IndexOf(s, sep) + 1..];
    var restParts, restCount := SplitNPartsOf(rest, sep, n - 1);
    var parts := SplitNFirstLength(s, sep, n, rest, restParts);
    var count := CountAfterSplit(s, sep, rest, restCount);
    OneMorePart(parts, restParts, count, restCount, n);
  }

  // Proof step: the part count of the remainder, as values.
  lemma {:induction false} SplitNPartsOf(s: string, sep: char, n: nat) returns (parts: nat, count: nat)
    ensures parts == |SplitN(s, sep, n)| && count == Count(s, sep)
    ensures parts == Min(count, n) + 1
    decreases n, 2
  {
    SplitNParts(s, sep, n);
    parts, count := |SplitN(s, sep, n)|, Count(s, sep);
  }

  lemma SplitNFirstLength(s: string, sep: char, n: nat, rest: string, restParts: nat) returns (parts: nat)
    requires n > 0 && IndexOf(s, sep) < |s| && rest == s[IndexOf(s, sep) + 1..]
    requires restParts == |SplitN(rest, sep, n - 1)|
    ensures parts == |SplitN(s, sep, n)| && parts == 1 + restParts
  {
    SplitNFirst(s, sep, n);
    parts := |SplitN(s, sep, n)|;
  }

  lemma CountAfterSplit(s: string, sep: char, rest: string, restCount: nat) returns (count: nat)
    requires IndexOf(s, sep) < |s| && rest == s[IndexOf(s, sep) + 1..]
    requires restCount == Count(rest, sep)
    ensures count == Count(s, sep) && count == 1 + restCount
  {
    CountAfterFirst(s, sep);
    count := Count(s, sep);
  }

  // Proof step: the part-count arithmetic of one more split, given as values.
  lemma OneMorePart(parts: nat, restParts: nat, count: nat, restCount: nat, n: nat)
    requires n > 0 && parts == 1 + restParts && count == 1 + restCount
    requires restParts == Min(restCount, n - 1) + 1
    ensures parts == Min(count, n) + 1
  {
  }

  lemma SplitNWhole(s: string, sep: char, n: nat)
    requires IndexOf(s, sep) == |s|
    ensures Count(s, sep) == 0 && SplitN(s, sep, n) == [s]
  {
    assert s[..|s|] == s;
  }

  lemma SplitNZero(s: string, sep: char)
    ensures SplitN(s, sep, 0) == [s]
  {
  }

  lemma SplitNFirst(s: string, sep: char, n: nat)
    requires n > 0 && IndexOf(s, sep) < |s|
    ensures SplitN(s, sep, n) == [s[..IndexOf(s, sep)]] + SplitN(s[IndexOf(s, sep) + 1..], sep, n - 1)
  {
  }

  /** A piece of `s.split()`: non-empty, no whitespace in it. */
  predicate IsWord(w: string) {
    w != [] && forall j :: 0 <= j < |w| ==> !IsSpace(w[j])
  }

  /** `s.split()`: maximal runs of non-whitespace. */
  function Words(s: string): (ws: seq<string>)
    ensures forall i :: 0 <= i < |ws| ==> IsWord(ws[i])
    decreases |s|
  {
    var t := LStrip(s);
    if t == [] then []
    else
      var i := IndexOfSpace(t);
      FirstWord(t, i);
      var rest := Words(t[i..]);
      AllWordsCons(t[..i], rest);
      [t[..i]] + rest
  }

  lemma AllWordsCons(w: string, ws: seq<string>)
    requires IsWord(w) && forall i :: 0 <= i < |ws| ==> IsWord(ws[i])
    ensures forall i :: 0 <= i < |[w] + ws| ==> IsWord(([w] + ws)[i])
  {
  }

  lemma FirstWord(t: string, i: nat)
    requires t != [] && !IsSpace(t[0]) && i == IndexOfSpace(t)
    ensures 0 < i <= |t| && IsWord(t[..i])
  {
  }

  /** `s.splitlines()` */
  function SplitLines(s: string): (lines: seq<string>)
    ensures forall i, j :: 0 <= i < |lines| && 0 <= j < |lines[i]| ==> !IsLineBreak(lines[i][j])
    decreases |s|
  {
    if s == [] then []
    else
      var i := IndexOfLineBreak(s);
      if i == |s| then [s]
      else
        var next := if s[i] == '\r' && i + 1 < |s| && s[i + 1] == '\n' then i + 2 else i + 1;
        [s[..i]] + SplitLines(s[next..])
  }

  function IndexOfLineBreak(s: string): (i: nat)
    ensures i <= |s|
    ensures i < |s| ==> IsLineBreak(s[i])
    ensures forall j :: 0 <= j < i ==> !IsLineBreak(s[j])
  {
    if s == [] then 0 else if IsLineBreak(s[0]) then 0 else 1 + IndexOfLineBreak(s[1..])
  }

  /** `sep.join(parts)` */
  function Join(parts: seq<string>, sep: string): string {
    if |parts| == 0 then []
    else if |parts| == 1 then parts[0]
    else parts[0] + sep + Join(parts[1..], sep)
  }

  lemma JoinTwo(a: string, b: string, sep: string)
    ensures Join([a, b], sep) == a + sep + b
  {
    assert [a, b][1..] == [b];
  }

  lemma JoinThree(a: string, b: string, c: string, sep: string)
    ensures Join([a, b, c], sep) == a + sep + b + sep + c
  {
    assert [a, b, c][1..] == [b, c];
    JoinTwo(b, c, sep);
  }

  lemma JoinFour(parts: seq<string>, sep: string)
    requires |parts| == 4
    ensures Join(parts, sep) == parts[0] + sep + parts[1] + sep + parts[2] + sep + parts[3]
  {
    assert parts[1..] == [parts[1], parts[2], parts[3]];
    JoinThree(parts[1], parts[2], parts[3], sep);
  }

  /** Joining the parts of `s.split(sep, n)` with `sep` gives `s` back. */
  lemma {:induction false} SplitNJoin(s: string, sep: char, n: nat)
    ensures Join(SplitN(s, sep, n), [sep]) == s
    decreases n, 1
  {
    if n == 0 {
      assert SplitN(s, sep, n) == [s];
    } else if IndexOf(s, sep) == |s| {
      SplitNWhole(s, sep, n);
    } else {
      SplitNJoinStep(s, sep, n);
    }
  }

  lemma {:induction false} SplitNJoinStep(s: string, sep: char, n: nat)
    requires n > 0 && IndexOf(s, sep) < |s|
    ensures Join(SplitN(s, sep, n), [sep]) == s
    decreases n, 0
  {
    var i := IndexOf(s, sep);
    SplitNFirst(s, sep, n);
    SplitNJoin(s[i + 1..], sep, n - 1);
    JoinAround(s, i, SplitN(s, sep, n), SplitN(s[i + 1..], sep, n - 1));
  }

  /** Putting back the separator found at `i` between the piece before it
      and the joined pieces after it. */
  lemma JoinAround(s: string, i: nat, whole: seq<string>, parts: seq<string>)
    requires i < |s| && |parts| >= 1
    requires whole == [s[..i]] + parts
    requires Join(parts, [s[i]]) == s[i + 1..]
    ensures Join(whole, [s[i]]) == s
  {
    assert whole[1..] == parts;
    assert s[..i] + [s[i]] + s[i + 1..] == s;
  }

  /** The list comprehension `[f(x) for x in xs if x]`. */
  function MapNonEmpty(xs: seq<string>, f: string -> string): (ys: seq<string>)
    ensures |ys| <= |xs|
  {
    if xs == [] then []
    else (if xs[0] != [] then [f(xs[0])] else []) + MapNonEmpty(xs[1..], f)
  }

  /** The comprehension keeps the order of its input. */
  lemma {:induction false} MapNonEmptyAppend(a: seq<string>, b: seq<string>, f: string -> string)
    ensures MapNonEmpty(a + b, f) == MapNonEmpty(a, f) + MapNonEmpty(b, f)
  {
    if a == [] {
      assert a + b == b;
    } else {
      assert (a + b)[1..] == a[1..] + b;
      MapNonEmptyAppend(a[1..], b, f);
    }
  }

  /** Over non-empty strings the comprehension maps position by position. */
  lemma {:induction false} MapNonEmptyAll(xs: seq<string>, f: string -> string)
    requires forall i :: 0 <= i < |xs| ==> xs[i] != []
    ensures |MapNonEmpty(xs, f)| == |xs|
    ensures forall i :: 0 <= i < |xs| ==> MapNonEmpty(xs, f)[i] == f(xs[i])
  {
    if xs != [] {
      MapNonEmptyAll(xs[1..], f);
    }
  }

  /** Every result is the image of some non-empty input, and every such image is a result. */
  lemma {:induction false} MapNonEmptyMember(xs: seq<string>, f: string -> string, y: string)
    ensures y in MapNonEmpty(xs, f) <==> exists x :: x in xs && x != [] && f(x) == y
  {
    if xs != [] {
      MapNonEmptyMember(xs[1..], f, y);
      assert forall x :: x in xs <==> x == xs[0] || x in xs[1..];
    }
  }

  /** `sub in s` */
  predicate IsSubstring(sub: string, s: string)
    decreases |s|
  {
    sub <= s || (s != [] && IsSubstring(sub, s[1..]))
  }

  /** `s.endswith(suffix)` */
  predicate EndsWith(s: string, suffix: string) {
    |suffix| <= |s| && s[|s| - |suffix|..] == suffix
  }

  /** `s.replace(pat, rep)`: every non-overlapping occurrence, left to right. */
  function Replace(s: string, pat: string, rep: string): (r: string)
    requires pat != []
    ensures |pat| == |rep| ==> |r| == |s|
    ensures |rep| <= |pat| ==> |r| <= |s|
    ensures |pat| == 1 && pat[0] !in rep ==> pat[0] !in r
    ensures forall c :: c in r ==> c in s || c in rep
    decreases |s|
  {
    if |s| < |pat| then s
    else if s[..|pat|] == pat then rep + Replace(s[|pat|..], pat, rep)
    else [s[0]] + Replace(s[1..], pat, rep)
  }

  function LowerChar(c: char): char {
    if 'A' <= c <= 'Z' then (c as int + 32) as char else c
  }

  function UpperChar(c: char): char {
    if 'a' <= c <= 'z' then (c as int - 32) as char else c
  }

  /** `s.lower()` */
  function Lower(s: string): (r: string)
    ensures |r| == |s|
    ensures forall i :: 0 <= i < |r| ==> !('A' <= r[i] <= 'Z')
    ensures forall i :: 0 <= i < |s| && !IsAsciiLetter(s[i]) ==> r[i] == s[i]
  {
    seq(|s|, i requires 0 <= i < |s| => LowerChar(s[i]))
  }

  /** `s.upper()` */
  function Upper(s: string): (r: string)
    ensures |r| == |s|
    ensures forall i :: 0 <= i < |r| ==> !('a' <= r[i] <= 'z')
    ensures forall i :: 0 <= i < |s| && !IsAsciiLetter(s[i]) ==> r[i] == s[i]
  {
    seq(|s|, i requires 0 <= i < |s| => UpperChar(s[i]))
  }

  /** `s.capitalize()`: first character upper case, the rest lower case. */
  function Capitalize(s: string): (r: string)
    ensures |r| == |s|
    ensures r != [] ==> !('a' <= r[0] <= 'z')
    ensures forall i :: 1 <= i < |r| ==> !('A' <= r[i] <= 'Z')
  {
    if s == [] then [] else [UpperChar(s[0])] + Lower(s[1..])
  }

  // ----- facts about the operations above -----

  lemma {:induction false} SplitNoSep(s: string, sep: char)
    requires sep !in s
    ensures Split(s, sep) == [s]
    decreases |s|
  {
    if s != [] {
      SplitNoSep(s[1..], sep);
      assert [s[0]] + s[1..] == s;
    }
  }

  lemma {:induction false} SplitAfter(a: string, sep: char, t: string)
    requires sep !in a
    ensures Split(a + [sep] + t, sep) == [a] + Split(t, sep)
    decreases |a|
  {
    if a == [] {
      assert ([sep] + t)[1..] == t;
    } else {
      assert (a + [sep] + t)[1..] == a[1..] + [sep] + t;
      SplitAfter(a[1..], sep, t);
      assert [a[0]] + a[1..] == a;
    }
  }

  /** Splitting undoes joining when no part holds the separator. */
  lemma {:induction false} SplitJoin(parts: seq<string>, sep: char)
    requires |parts| >= 1
    requires forall i :: 0 <= i < |parts| ==> sep !in parts[i]
    ensures Split(Join(parts, [sep]), sep) == parts
    decreases |parts|
  {
    if |parts| == 1 {
      SplitNoSep(parts[0], sep);
    } else {
      SplitJoin(parts[1..], sep);
      SplitAfter(parts[0], sep, Join(parts[1..], [sep]));
      assert [parts[0]] + parts[1..] == parts;
    }
  }

  /** Joining undoes splitting. */
  lemma {:induction false} JoinSplit(s: string, sep: char)
    ensures Join(Split(s, sep), [sep]) == s
    decreases |s|
  {
    if s != [] {
      JoinSplit(s[1..], sep);
      var rest := Split(s[1..], sep);
      if s[0] != sep {
        if |rest| == 1 {
          assert Join(rest, [sep]) == rest[0];
        } else {
          assert Join(rest, [sep]) == rest[0] + [sep] + Join(rest[1..], [sep]);
          assert ([[s[0]] + rest[0]] + rest[1..])[1..] == rest[1..];
        }
        assert [s[0]] + s[1..] == s;
      } else {
        assert ([[]] + rest)[1..] == rest;
        assert [s[0]] + s[1..] == s;
      }
    }
  }

  /** A character that does not occur is not a one-character substring. */
  lemma {:induction false} AbsentCharNotSubstring(c: char, s: string)
    requires c !in s
    ensures !IsSubstring([c], s)
    decreases |s|
  {
    if s != [] {
      assert s[0] != c;
      AbsentCharNotSubstring(c, s[1..]);
    }
  }

  /** Replacing one character works piece by piece. */
  lemma {:induction false} ReplaceCharConcat(a: string, b: string, c: char, rep: string)
    ensures Replace(a + b, [c], rep) == Replace(a, [c], rep) + Replace(b, [c], rep)
    decreases |a|
  {
    if a == [] {
      assert a + b == b;
    } else {
      var ab := a + b;
      assert ab[0] == a[0] && ab[1..] == a[1..] + b;
      ReplaceCharConcat(a[1..], b, c, rep);
      ReplaceCharHead(a, c, rep);
      ReplaceCharHead(ab, c, rep);
      ConcatStep(if a[0] == c then rep else [a[0]], Replace(a[1..], [c], rep), Replace(b, [c], rep),
        Replace(ab, [c], rep), Replace(a, [c], rep));
    }
  }

  // Proof step: the head of `a` followed by the rest, with the pieces given as values.
  lemma ConcatStep(head: string, tail: string, rb: string, whole: string, ra: string)
    requires whole == head + (tail + rb) && ra == head + tail
    ensures whole == ra + rb
  {
  }

  lemma ReplaceCharHead(s: string, c: char, rep: string)
    requires s != []
    ensures Replace(s, [c], rep) == (if s[0] == c then rep else [s[0]]) + Replace(s[1..], [c], rep)
  {
    assert s[..1] == [s[0]];
  }

  /** Replacing one character in a one-character string. */
  lemma ReplaceCharSingle(d: char, c: char, rep: string)
    ensures Replace([d], [c], rep) == if d == c then rep else [d]
  {
    ReplaceCharHead([d], c, rep);
    assert [d][1..] == [];
  }

  lemma {:induction false} ReplaceAbsent(s: string, pat: string, rep: string)
    requires pat != [] && !IsSubstring(pat, s)
    ensures Replace(s, pat, rep) == s
    decreases |s|
  {
    if |s| >= |pat| {
      assert s[..|pat|] != pat;
      ReplaceAbsent(s[1..], pat, rep);
      assert [s[0]] + s[1..] == s;
    }
  }

  lemma ReplaceAfterPattern(pat: string, x: string, rep: string)
    requires pat != []
    ensures Replace(pat + x, pat, rep) == rep + Replace(x, pat, rep)
  {
    assert (pat + x)[..|pat|] == pat;
    assert (pat + x)[|pat|..] == x;
  }

  lemma {:induction false} LStripNoop(s: string)
    requires s == [] || !IsSpace(s[0])
    ensures LStrip(s) == s
  {
  }

  lemma LStripSpace(c: char, t: string)
    requires IsSpace(c)
    ensures LStrip([c] + t) == LStrip(t)
  {
    assert ([c] + t)[1..] == t;
  }

  lemma LStripCharsCons(c: char, t: string, chars: set<char>)
    requires c in chars
    ensures LStripChars([c] + t, chars) == LStripChars(t, chars)
  {
    assert ([c] + t)[1..] == t;
  }

  lemma LStripCharsNoop(s: string, chars: set<char>)
    requires s == [] || s[0] !in chars
    ensures LStripChars(s, chars) == s
  {
  }

  lemma RStripNoop(s: string)
    requires s == [] || !IsSpace(s[|s| - 1])
    ensures RStrip(s) == s
  {
  }

  lemma StripTrimmed(s: string)
    requires IsTrimmed(s)
    ensures Strip(s) == s
  {
    assert LStrip(s) == s;
    if s != [] {
      assert RStrip(s) == s;
    }
  }

  /** `strip()` removes whitespace around a trimmed text and nothing of it. */
  lemma StripAround(front: string, t: string, back: string)
    requires forall i :: 0 <= i < |front| ==> IsSpace(front[i])
    requires forall i :: 0 <= i < |back| ==> IsSpace(back[i])
    requires t != [] && IsTrimmed(t)
    ensures Strip(front + t + back) == t
  {
    assert front + t + back == front + (t + back);
    LStripAfterSpace(front, t + back);
    RStripBeforeSpace(t, back);
  }

  lemma LStripAfterSpace(front: string, u: string)
    requires forall i :: 0 <= i < |front| ==> IsSpace(front[i])
    requires u != [] && !IsSpace(u[0])
    ensures LStrip(front + u) == u
  {
    var s := front + u;
    var l := LStrip(s);
    assert s[|front|] == u[0];
    assert |s| - |l| == |front|;
  }

  lemma RStripBeforeSpace(t: string, back: string)
    requires forall i :: 0 <= i < |back| ==> IsSpace(back[i])
    requires t != [] && !IsSpace(t[|t| - 1])
    ensures RStrip(t + back) == t
  {
    var s := t + back;
    var r := RStrip(s);
    assert s[|t| - 1] == t[|t| - 1];
    assert |r| == |t|;
  }

  /** The joined text ends where its last part ends. */
  lemma {:induction false} JoinEnd(parts: seq<string>, sep: string)
    requires |parts| >= 1 && parts[|parts| - 1] != []
    ensures var j := Join(parts, sep); var last := parts[|parts| - 1];
      j != [] && j[|j| - 1] == last[|last| - 1]
    decreases |parts|
  {
    if |parts| > 1 {
      JoinEnd(parts[1..], sep);
      JoinUnfold(parts, sep);
    }
  }

  /** `split()` gives back the words that a single space joined. */
  lemma {:induction false} WordsJoin(ws: seq<string>)
    requires forall i :: 0 <= i < |ws| ==> IsWord(ws[i])
    ensures Words(Join(ws, " ")) == ws
    decreases |ws|
  {
    if |ws| == 1 {
      WordsSingle(ws[0]);
    } else if |ws| > 1 {
      WordsJoin(ws[1..]);
      JoinUnfold(ws, " ");
      WordsCons(ws[0], Join(ws[1..], " "));
      HeadTail(ws);
    }
  }

  lemma JoinUnfold(parts: seq<string>, sep: string)
    requires |parts| > 1
    ensures Join(parts, sep) == parts[0] + sep + Join(parts[1..], sep)
  {
  }

  // Proof step: a non-empty sequence is its head followed by its tail.
  lemma HeadTail<T>(xs: seq<T>)
    requires xs != []
    ensures [xs[0]] + xs[1..] == xs
  {
  }

  lemma WordsSingle(w: string)
    requires IsWord(w)
    ensures Words(w) == [w]
  {
    assert Words([]) == [];
    LStripNoop(w);
    IndexOfSpaceNone(w);
    assert w[..|w|] == w && w[|w|..] == [];
  }

  lemma WordsCons(w: string, t: string)
    requires IsWord(w)
    ensures Words(w + " " + t) == [w] + Words(t)
  {
    var s := w + (" " + t);
    assert s == w + " " + t;
    LStripNoop(s);
    IndexOfSpacePrefix(w, " " + t);
    WordsUnfold(s, |w|);
    SplitAt(w, " " + t);
    WordsLeadingSpace(' ', t);
  }

  lemma WordsUnfold(s: string, i: nat)
    requires LStrip(s) == s != [] && i == IndexOfSpace(s)
    ensures Words(s) == [s[..i]] + Words(s[i..])
  {
  }

  // Proof step: a concatenation cut at the first part's length gives both parts back.
  lemma SplitAt(a: string, b: string)
    ensures (a + b)[..|a|] == a && (a + b)[|a|..] == b
  {
  }

  lemma WordsLeadingSpace(c: char, t: string)
    requires IsSpace(c)
    ensures Words([c] + t) == Words(t)
  {
    LStripSpace(c, t);
  }

  lemma {:induction false} IndexOfSpaceNone(w: string)
    requires forall j :: 0 <= j < |w| ==> !IsSpace(w[j])
    ensures IndexOfSpace(w) == |w|
    decreases |w|
  {
    if w != [] { IndexOfSpaceNone(w[1..]); }
  }

  lemma {:induction false} IndexOfSpacePrefix(w: string, t: string)
    requires forall j :: 0 <= j < |w| ==> !IsSpace(w[j])
    requires t != [] && IsSpace(t[0])
    ensures IndexOfSpace(w + t) == |w|
    decreases |w|
  {
    if w != [] {
      assert (w + t)[1..] == w[1..] + t;
      IndexOfSpacePrefix(w[1..], t);
    } else {
      assert w + t == t;
    }
  }

  lemma {:induction false} IndexOfAfter(a: string, c: char, t: string)
    requires c !in a
    ensures IndexOf(a + [c] + t, c) == |a|
    decreases |a|
  {
    if a != [] {
      assert (a + [c] + t)[1..] == a[1..] + [c] + t;
      IndexOfAfter(a[1..], c, t);
    }
  }

  /** A character in no part and not in the separator is not in the joined string. */
  lemma {:induction false} JoinAvoids(parts: seq<string>, sep: string, c: char)
    requires forall i :: 0 <= i < |parts| ==> c !in parts[i]
    requires c !in sep
    ensures c !in Join(parts, sep)
    decreases |parts|
  {
    if |parts| > 1 {
      JoinAvoids(parts[1..], sep, c);
      JoinUnfold(parts, sep);
    }
  }

  /** `strip()` of a git listing line: the `* ` marker survives, two leading spaces do not. */
  lemma StripAfterMarker(marker: string, y: string)
    requires marker == "* " || marker == "  "
    requires y != [] && IsTrimmed(y)
    ensures Strip(marker + y) == (if marker == "* " then marker + y else y)
  {
    var s := marker + y;
    if marker == "* " {
      assert s[0] == '*' && s[|s| - 1] == y[|y| - 1];
      StripTrimmed(s);
    } else {
      assert s == [' '] + ([' '] + y);
      LStripSpace(' ', [' '] + y);
      LStripSpace(' ', y);
      LStripNoop(y);
      RStripNoop(y);
    }
  }

  /** `lstrip("* ")` removes a listing marker and nothing more. */
  lemma LStripMarker(marker: string, y: string)
    requires marker == "* " || marker == "  " || marker == ""
    requires y != [] && y[0] != '*' && y[0] != ' '
    ensures LStripChars(marker + y, {'*', ' '}) == y
  {
    if marker == "" {
      assert marker + y == y;
      LStripCharsNoop(y, {'*', ' '});
    } else {
      assert marker == [marker[0], ' '];
      ConsTwo(marker[0], ' ', y);
      LStripTwo(marker[0], y, {'*', ' '});
    }
  }

  lemma LStripTwo(c: char, y: string, chars: set<char>)
    requires c in chars && ' ' in chars && (y == [] || y[0] !in chars)
    ensures LStripChars([c] + ([' '] + y), chars) == y
  {
    LStripCharsCons(c, [' '] + y, chars);
    LStripCharsCons(' ', y, chars);
    LStripCharsNoop(y, chars);
  }

  // Proof step: a two-character prefix is one character and then another.
  lemma ConsTwo(c: char, d: char, y: string)
    ensures [c, d] + y == [c] + ([d] + y)
  {
  }
}
