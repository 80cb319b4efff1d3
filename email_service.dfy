/** backend/services/email.py: the display name read from an address and
    the greeting and signature built around a message. */
module EmailService {
  import opened PyStr

  // ---------------------------------------------------------------------
  // format_name_from_email
  // ---------------------------------------------------------------------

  /** `email.split("@")[0]`: the text before the first `@`, or all of it. */
  function LocalPart(email: string): (local: string)
    ensures '@' !in local
  {
    Split(email, '@')[0]
  }

  /** `.replace(".", " ").replace("_", " ")` */
  function Separated(s: string): (r: string)
    ensures |r| == |s| && '.' !in r && '_' !in r
  {
    Replace(Replace(s, ".", " "), "_", " ")
  }

  /** `re.sub(r'[^a-zA-Z]', '', part)`: the ASCII letters of `part`, in order. */
  function Letters(part: string): (r: string)
    ensures |r| <= |part|
    ensures forall i :: 0 <= i < |r| ==> IsAsciiLetter(r[i])
    ensures forall c :: c in r <==> c in part && IsAsciiLetter(c)
  {
    if part == [] then []
    else (if IsAsciiLetter(part[0]) then [part[0]] else []) + Letters(part[1..])
  }

  /** A word of the display name: an upper-case letter, then lower-case ones. */
  predicate IsNameWord(w: string) {
    w != [] && 'A' <= w[0] <= 'Z' && forall i :: 1 <= i < |w| ==> 'a' <= w[i] <= 'z'
  }

  /** What one piece contributes: nothing when it holds no letter, otherwise
      its letters capitalised. */
  function CleanedWord(part: string): (ws: seq<string>)
    ensures |ws| <= 1
    ensures ws == [] <==> Letters(part) == []
    ensures forall i :: 0 <= i < |ws| ==> IsNameWord(ws[i])
  {
    var cleaned := Letters(part);
    if cleaned == [] then [] else [Capitalize(cleaned)]
  }

  /** The words the loop collects from the pieces, in order. */
  function NameWords(parts: seq<string>): (ws: seq<string>)
    ensures |ws| <= |parts|
    ensures forall i :: 0 <= i < |ws| ==> IsNameWord(ws[i])
  {
    if parts == [] then []
    else
      var front := NameWords(parts[..|parts| - 1]);
      var last := CleanedWord(parts[|parts| - 1]);
      AllNameWords(front, last);
      front + last
  }

  lemma AllNameWords(a: seq<string>, b: seq<string>)
    requires forall i :: 0 <= i < |a| ==> IsNameWord(a[i])
    requires forall i :: 0 <= i < |b| ==> IsNameWord(b[i])
    ensures forall i :: 0 <= i < |a + b| ==> IsNameWord((a + b)[i])
  {
  }

  /** The name `format_name_from_email(email)` returns. */
  function NameFromEmail(email: string): string {
    Join(NameWords(Words(Separated(LocalPart(email)))), " ")
  }

  /** `format_name_from_email(email)` */
  method FormatNameFromEmail(email: string) returns (name: string)
    ensures name == NameFromEmail(email)
  {
    var namePart := Split(email, '@')[0];
    namePart := Replace(Replace(namePart, ".", " "), "_", " ");
    var parts := Words(namePart);
    var words: seq<string> := [];
    var i := 0;
    while i < |parts|
      invariant 0 <= i <= |parts|
      invariant words == NameWords(parts[..i])
    {
      var cleaned := Letters(parts[i]);
      NameWordsStep(parts, i);
      if cleaned != [] {
        words := words + [Capitalize(cleaned)];
      }
      i := i + 1;
    }
    assert parts[..i] == parts;
    name := Join(words, " ");
  }

  /** Reading one more piece. */
  lemma NameWordsStep(parts: seq<string>, i: nat)
    requires i < |parts|
    ensures NameWords(parts[..i + 1]) == NameWords(parts[..i]) + CleanedWord(parts[i])
  {
    assert parts[..i + 1][..i] == parts[..i];
  }

  /** A name word is a word of `split()`, is its own letters, is already
      capitalised, and holds none of `@`, `.` and `_`. */
  lemma NameWordFacts(w: string)
    requires IsNameWord(w)
    ensures IsWord(w) && Letters(w) == w && Capitalize(w) == w
    ensures '@' !in w && '.' !in w && '_' !in w
  {
    assert forall i :: 0 <= i < |w| ==> IsAsciiLetter(w[i]);
    LettersKeep(w);
    assert Lower(w[1..]) == w[1..];
  }

  lemma {:induction false} LettersKeep(s: string)
    requires forall i :: 0 <= i < |s| ==> IsAsciiLetter(s[i])
    ensures Letters(s) == s
    decreases |s|
  {
    if s != [] {
      LettersKeep(s[1..]);
      assert [s[0]] + s[1..] == s;
    }
  }

  /** Cleaning a list of name words changes nothing. */
  lemma {:induction false} NameWordsKeep(ws: seq<string>)
    requires forall i :: 0 <= i < |ws| ==> IsNameWord(ws[i])
    ensures NameWords(ws) == ws
    decreases |ws|
  {
    if ws != [] {
      var n := |ws| - 1;
      NameWordsKeep(ws[..n]);
      NameWordFacts(ws[n]);
      NameWordsLast(ws, n);
      AppendLast(ws, n, NameWords(ws[..n]), CleanedWord(ws[n]));
    }
  }

  lemma NameWordsLast(ws: seq<string>, n: nat)
    requires n + 1 == |ws|
    ensures NameWords(ws) == NameWords(ws[..n]) + CleanedWord(ws[n])
  {
  }

  // Proof step: a prefix followed by the last element is the whole sequence.
  lemma AppendLast(ws: seq<string>, n: nat, front: seq<string>, last: seq<string>)
    requires n + 1 == |ws| && front == ws[..n] && last == [ws[n]]
    ensures front + last == ws
  {
  }

  /** The name is a run of capitalised words, one space apart: splitting it
      and joining it again gives it back. */
  lemma NameShape(email: string)
    ensures var name := NameFromEmail(email);
      Join(Words(name), " ") == name && forall i :: 0 <= i < |Words(name)| ==> IsNameWord(Words(name)[i])
  {
    var ws := NameWords(Words(Separated(LocalPart(email))));
    NameWordsAreWords(ws);
    WordsJoin(ws);
  }

  lemma NameWordsAreWords(ws: seq<string>)
    requires forall i :: 0 <= i < |ws| ==> IsNameWord(ws[i])
    ensures forall i :: 0 <= i < |ws| ==> IsWord(ws[i])
  {
    forall i | 0 <= i < |ws|
      ensures IsWord(ws[i])
    {
      NameWordFacts(ws[i]);
    }
  }

  /** Name words joined by spaces hold no `@`, `.` or `_`. */
  lemma JoinedNameAvoids(ws: seq<string>)
    requires forall i :: 0 <= i < |ws| ==> IsNameWord(ws[i])
    ensures var name := Join(ws, " "); '@' !in name && '.' !in name && '_' !in name
  {
    forall i | 0 <= i < |ws|
      ensures '@' !in ws[i] && '.' !in ws[i] && '_' !in ws[i]
    {
      NameWordFacts(ws[i]);
    }
    JoinAvoids(ws, " ", '@');
    JoinAvoids(ws, " ", '.');
    JoinAvoids(ws, " ", '_');
  }

  /** Text without `@`, `.` and `_` passes the first two steps unchanged. */
  lemma PlainLocalPart(s: string)
    requires '@' !in s && '.' !in s && '_' !in s
    ensures LocalPart(s) == s && Separated(s) == s
  {
    SplitNoSep(s, '@');
    AbsentCharNotSubstring('.', s);
    ReplaceAbsent(s, ".", " ");
    AbsentCharNotSubstring('_', s);
    ReplaceAbsent(s, "_", " ");
  }

  /** Formatting a formatted name gives it back unchanged. */
  lemma NameIdempotent(email: string)
    ensures NameFromEmail(NameFromEmail(email)) == NameFromEmail(email)
  {
    var ws := NameWords(Words(Separated(LocalPart(email))));
    var name := Join(ws, " ");
    JoinedNameAvoids(ws);
    PlainLocalPart(name);
    NameWordsAreWords(ws);
    WordsJoin(ws);
    NameWordsKeep(ws);
  }

  /** Only the text before the first `@` is read. */
  lemma OnlyBeforeFirstAt(a: string, b: string)
    requires '@' !in a
    ensures NameFromEmail(a + "@" + b) == NameFromEmail(a)
  {
    SplitAfter(a, '@', b);
    SplitNoSep(a, '@');
  }

  /** A dot or an underscore separates words just as a space does. */
  lemma DotsAndUnderscoresSeparate(a: string, b: string)
    requires '@' !in a && '@' !in b
    ensures NameFromEmail(a + "." + b) == NameFromEmail(a + " " + b)
    ensures NameFromEmail(a + "_" + b) == NameFromEmail(a + " " + b)
  {
    SeparatedAround(a, '.', b);
    SeparatedAround(a, '_', b);
    SeparatedAround(a, ' ', b);
  }

  lemma SeparatedAround(a: string, d: char, b: string)
    requires d == '.' || d == '_' || d == ' '
    requires '@' !in a && '@' !in b
    ensures Separated(LocalPart(a + [d] + b)) == Separated(a) + " " + Separated(b)
  {
    var s := a + [d] + b;
    assert '@' !in s by {
      forall i | 0 <= i < |s| ensures s[i] != '@' {
        if i < |a| { assert s[i] == a[i]; }
        else if i > |a| { assert s[i] == b[i - |a| - 1]; }
      }
    }
    SplitNoSep(s, '@');
    SeparatedConcat(a, d, b);
  }

  /** Each separator, and a space, becomes one space. */
  lemma SeparatedConcat(a: string, d: char, b: string)
    requires d == '.' || d == '_' || d == ' '
    ensures Separated(a + [d] + b) == Separated(a) + " " + Separated(b)
  {
    ReplaceCharConcat(a + [d], b, '.', " ");
    ReplaceCharConcat(a, [d], '.', " ");
    ReplaceCharSingle(d, '.', " ");
    var d1 := if d == '.' then " " else [d];
    var a1 := Replace(a, ".", " ");
    var b1 := Replace(b, ".", " ");
    ReplaceCharConcat(a1 + d1, b1, '_', " ");
    ReplaceCharConcat(a1, d1, '_', " ");
    assert d1 == [d1[0]];
    ReplaceCharSingle(d1[0], '_', " ");
  }

  /** A word of lower-case ASCII letters, like `john`. */
  predicate IsLowerWord(w: string) {
    w != [] && forall i :: 0 <= i < |w| ==> 'a' <= w[i] <= 'z'
  }

  /** ASCII letters and digits only, like `doe123`. */
  predicate IsAlnum(s: string) {
    forall i :: 0 <= i < |s| ==> IsAsciiLetter(s[i]) || IsDigitChar(s[i])
  }

  lemma AlnumFacts(s: string)
    requires IsAlnum(s)
    ensures '@' !in s && '.' !in s && '_' !in s
    ensures s != [] ==> IsWord(s)
  {
  }

  /** `first.lastNNN@domain` gives `First Last`: the dot separates the two
      names, the digits vanish and each name is capitalised; for instance
      `john.doe123@x.com` gives `John Doe`. */
  lemma FirstDotLast(first: string, last: string, digits: string, domain: string)
    requires IsLowerWord(first) && IsLowerWord(last)
    requires forall i :: 0 <= i < |digits| ==> IsDigitChar(digits[i])
    ensures NameFromEmail(first + "." + last + digits + "@" + domain)
            == Capitalize(first) + " " + Capitalize(last)
  {
    var rest := last + digits;
    var local := first + "." + rest;
    var spaced := first + " " + rest;
    var email := first + "." + last + digits + "@" + domain;
    LocalOfFirstDotLast(first, last, digits, domain);
    SpacedFirstLast(first, rest);
    CleanFirstAndLast(first, last, digits);
    NameOf(email, local, spaced, [first, rest], [Capitalize(first), Capitalize(last)]);
    JoinTwo(Capitalize(first), Capitalize(last), " ");
  }

  /** The dot becomes a space and the two pieces are the two words. */
  lemma SpacedFirstLast(first: string, rest: string)
    requires IsAlnum(first) && IsAlnum(rest) && first != [] && rest != []
    ensures Separated(first + "." + rest) == first + " " + rest
    ensures Words(first + " " + rest) == [first, rest]
  {
    AlnumFacts(first);
    AlnumFacts(rest);
    SeparatedConcat(first, '.', rest);
    PlainLocalPart(first);
    PlainLocalPart(rest);
    WordsOfTwo(first, rest);
  }

  /** Proof step: the stages of the name, given as values. */
  lemma NameOf(email: string, local: string, spaced: string, parts: seq<string>, words: seq<string>)
    requires LocalPart(email) == local && Separated(local) == spaced
    requires Words(spaced) == parts && NameWords(parts) == words
    ensures NameFromEmail(email) == Join(words, " ")
  {
  }

  lemma LocalOfFirstDotLast(first: string, last: string, digits: string, domain: string)
    requires IsLowerWord(first) && IsLowerWord(last)
    requires forall i :: 0 <= i < |digits| ==> IsDigitChar(digits[i])
    ensures LocalPart(first + "." + last + digits + "@" + domain) == first + "." + (last + digits)
            && IsAlnum(first) && IsAlnum(last + digits) && last + digits != []
  {
    var rest := last + digits;
    var local := first + "." + rest;
    assert IsAlnum(rest) by {
      forall i | 0 <= i < |rest| ensures IsAsciiLetter(rest[i]) || IsDigitChar(rest[i]) {
        if i < |last| { assert rest[i] == last[i]; } else { assert rest[i] == digits[i - |last|]; }
      }
    }
    AlnumFacts(first);
    AlnumFacts(rest);
    assert '@' !in local by {
      forall i | 0 <= i < |local| ensures local[i] != '@' {
        if i < |first| { assert local[i] == first[i]; }
        else if i > |first| { assert local[i] == rest[i - |first| - 1]; }
      }
    }
    assert first + "." + last + digits + "@" + domain == local + "@" + domain;
    SplitAfter(local, '@', domain);
    SplitNoSep(local, '@');
  }

  lemma CleanFirstAndLast(first: string, last: string, digits: string)
    requires IsLowerWord(first) && IsLowerWord(last)
    requires forall i :: 0 <= i < |digits| ==> IsDigitChar(digits[i])
    ensures NameWords([first, last + digits]) == [Capitalize(first), Capitalize(last)]
  {
    NameWordsOfTwo(first, last + digits);
    LowerWordCleaned(first);
    DigitsDropped(last, digits);
    PairOf(Capitalize(first), Capitalize(last));
  }

  /** Trailing digits leave a word as it was. */
  lemma DigitsDropped(last: string, digits: string)
    requires IsLowerWord(last)
    requires forall i :: 0 <= i < |digits| ==> IsDigitChar(digits[i])
    ensures CleanedWord(last + digits) == [Capitalize(last)]
  {
    LettersConcat(last, digits);
    LettersKeep(last);
    LettersNone(digits);
    LettersThenNone(last, digits, Letters(last + digits));
  }

  // Proof step: two one-element sequences joined are a pair.
  lemma PairOf(x: string, y: string)
    ensures [x] + [y] == [x, y]
  {
  }

  /** A lower-case word is kept whole and capitalised. */
  lemma LowerWordCleaned(w: string)
    requires IsLowerWord(w)
    ensures CleanedWord(w) == [Capitalize(w)]
  {
    LettersKeep(w);
  }

  lemma LettersThenNone(a: string, b: string, l: string)
    requires a != [] && Letters(a + b) == l
    requires l == Letters(a) + Letters(b) && Letters(a) == a && Letters(b) == []
    ensures CleanedWord(a + b) == [Capitalize(a)]
  {
    assert l == a;
  }

  lemma NameWordsOfTwo(p: string, q: string)
    ensures NameWords([p, q]) == CleanedWord(p) + CleanedWord(q)
  {
    assert [p, q][..1] == [p];
    assert [p][..0] == [];
  }

  lemma {:induction false} LettersConcat(a: string, b: string)
    ensures Letters(a + b) == Letters(a) + Letters(b)
    decreases |a|
  {
    if a != [] {
      LettersConcat(a[1..], b);
      LettersHead(a, b);
      var h := if IsAsciiLetter(a[0]) then [a[0]] else [];
      LettersAssoc(h, Letters(a[1..]), Letters(b), Letters(a[1..] + b));
    } else {
      assert a + b == b;
    }
  }

  lemma LettersHead(a: string, b: string)
    requires a != []
    ensures Letters(a + b) == (if IsAsciiLetter(a[0]) then [a[0]] else []) + Letters(a[1..] + b)
    ensures Letters(a) == (if IsAsciiLetter(a[0]) then [a[0]] else []) + Letters(a[1..])
  {
    assert (a + b)[0] == a[0];
    assert (a + b)[1..] == a[1..] + b;
  }

  // Proof step: a concatenation regrouped, with the inner part given as a value.
  lemma LettersAssoc(h: string, x: string, y: string, xy: string)
    requires xy == x + y
    ensures h + xy == (h + x) + y
  {
  }

  lemma {:induction false} LettersNone(s: string)
    requires forall i :: 0 <= i < |s| ==> !IsAsciiLetter(s[i])
    ensures Letters(s) == []
    decreases |s|
  {
    if s != [] {
      LettersNone(s[1..]);
    }
  }

  lemma WordsOfTwo(a: string, b: string)
    requires IsWord(a) && IsWord(b)
    ensures Words(a + " " + b) == [a, b]
  {
    WordsCons(a, b);
    WordsSingle(b);
    TwoWords(Words(a + " " + b), Words(b), a, b);
  }

  // Proof step: one word followed by a one-word rest is a pair.
  lemma TwoWords(whole: seq<string>, rest: seq<string>, a: string, b: string)
    requires whole == [a] + rest && rest == [b]
    ensures whole == [a, b]
  {
  }

  /** A piece of digits only contributes no word. */
  lemma DigitsVanish(s: string)
    requires forall i :: 0 <= i < |s| ==> IsDigitChar(s[i])
    ensures CleanedWord(s) == []
  {
    LettersNone(s);
  }

  /** Other characters vanish inside a word: `mary-jane` gives `Maryjane`. */
  lemma HyphenDropped(a: string, b: string)
    requires IsLowerWord(a) && IsLowerWord(b)
    ensures CleanedWord(a + "-" + b) == [Capitalize(a + b)]
  {
    LettersConcat(a + "-", b);
    LettersConcat(a, "-");
    LettersKeep(a);
    LettersKeep(b);
    LettersNone("-");
    assert a + [] == a;
  }

  // ---------------------------------------------------------------------
  // format_email_body
  // ---------------------------------------------------------------------

  /** What separates two paragraphs in the template: a line break and the
      template's sixteen spaces of indentation. */
  const ParagraphBreak: string := "\n                "

  /** The greeting paragraph, with the name upper-cased. */
  function Greeting(name: string): (g: string)
    ensures |g| == |name| + 30
    ensures forall i :: 8 <= i < 8 + |name| ==> !('a' <= g[i] <= 'z')
  {
    "<p>Dear " + Upper(name) + ",</p>" + ParagraphBreak
  }

  /** The closing paragraph, signed with `.capitalize()` of the upper-cased name. */
  function Signature(name: string): (s: string)
    ensures name != [] ==> |s| > 32 && !('a' <= s[32] <= 'z')
  {
    ParagraphBreak + "<p>Regards,<br>" + Capitalize(Upper(name)) + "</p>"
  }

  /** The message's paragraphs for a recipient whose display name is `name`. */
  function Letter(name: string, bodyText: string): string {
    Greeting(name) + "<p>" + bodyText + "</p>" + Signature(name)
  }

  /** `format_email_body(recipient_email, body_text)`, without the fixed style
      sheet and footer. */
  method FormatEmailBody(recipientEmail: string, bodyText: string) returns (html: string)
    ensures html == Letter(NameFromEmail(recipientEmail), bodyText)
  {
    var name := FormatNameFromEmail(recipientEmail);
    var recipientName := Upper(name);
    var greeting := "<p>Dear " + recipientName + ",</p>" + ParagraphBreak;
    var signature := ParagraphBreak + "<p>Regards,<br>" + Capitalize(recipientName) + "</p>";
    assert greeting == Greeting(name) && signature == Signature(name);
    html := greeting + "<p>" + bodyText + "</p>" + signature;
  }

  /** The body text goes in as it is, between a frame that does not depend on it. */
  lemma BodyVerbatim(name: string, bodyText: string)
    ensures var k := |Greeting(name)| + 3;
      Letter(name, bodyText) == Letter(name, "")[..k] + bodyText + Letter(name, "")[k..]
  {
    var pre, post := Greeting(name) + "<p>", "</p>" + Signature(name);
    assert Letter(name, bodyText) == pre + bodyText + post;
    assert Letter(name, "") == pre + post;
    FrameAround(pre, post, bodyText);
  }

  // Proof step: cutting `pre + post` after `pre` gives both pieces back.
  lemma FrameAround(pre: string, post: string, body: string)
    ensures var e := pre + post; pre + body + post == e[..|pre|] + body + e[|pre|..]
  {
    assert (pre + post)[..|pre|] == pre;
    assert (pre + post)[|pre|..] == post;
  }

  /** The greeting shows the name with no lower-case letter left. */
  lemma GreetingUpperCase(name: string)
    ensures forall i :: 0 <= i < |Upper(name)| ==> !('a' <= Upper(name)[i] <= 'z')
    ensures Lower(Upper(name)) == Lower(name)
  {
  }

  /** The signature is the name capitalised as a whole: only its very first
      letter stays upper case. */
  lemma SignatureCapitalizes(name: string)
    ensures Capitalize(Upper(name)) == Capitalize(name)
  {
    if name != [] {
      assert Upper(name)[0] == UpperChar(name[0]);
      assert Lower(Upper(name)[1..]) == Lower(name[1..]);
    }
  }

  /** `JOHN DOE` is signed `John doe`: the second name keeps no capital. */
  lemma TwoNameSignature(first: string, last: string)
    requires IsLowerWord(first) && IsLowerWord(last)
    ensures Capitalize(Upper(Capitalize(first) + " " + Capitalize(last))) == Capitalize(first) + " " + last
  {
    var n := Capitalize(first) + " " + Capitalize(last);
    var want := Capitalize(first) + " " + last;
    SignatureCapitalizes(n);
    forall i | 0 <= i < |want|
      ensures Capitalize(n)[i] == want[i]
    {
      TwoNameChar(first, last, i);
    }
  }

  // Proof step: one position of the two-name signature.
  lemma TwoNameChar(first: string, last: string, i: nat)
    requires IsLowerWord(first) && IsLowerWord(last)
    requires i < |first| + 1 + |last|
    ensures var n := Capitalize(first) + " " + Capitalize(last);
      Capitalize(n)[i] == (Capitalize(first) + " " + last)[i]
  {
    var n := Capitalize(first) + " " + Capitalize(last);
    var want := Capitalize(first) + " " + last;
    CapitalizeAt(n, i);
    if i < |first| {
      assert n[i] == Capitalize(first)[i] == want[i];
      CapitalizeAt(first, i);
    } else if i > |first| {
      var j := i - |first| - 1;
      assert n[i] == Capitalize(last)[j] && want[i] == last[j];
      CapitalizeAt(last, j);
    }
  }

  // Proof step: `capitalize()` at one position.
  lemma CapitalizeAt(s: string, i: nat)
    requires i < |s|
    ensures Capitalize(s)[i] == if i == 0 then UpperChar(s[0]) else LowerChar(s[i])
  {
    if i > 0 {
      assert Capitalize(s)[i] == Lower(s[1..])[i - 1];
    }
  }
}
