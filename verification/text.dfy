/**
 * String helpers shared by the model: JavaScript's `trim` (and the `\s` class of its
 * regular expressions), ASCII case mapping and prefix tests. Strings are sequences of
 * Unicode scalar values.
 */
module Text {
  import opened Wrappers

  /** The WhiteSpace and LineTerminator code points of ECMAScript, which `trim` and `\s` use. */
  predicate IsSpace(c: char) {
    c == '\t' || c == '\n' || c == '\U{B}' || c == '\U{C}' || c == '\r' || c == ' ' ||
    c == '\U{A0}' || c == '\U{1680}' || ('\U{2000}' <= c <= '\U{200A}') ||
    c == '\U{2028}' || c == '\U{2029}' || c == '\U{202F}' || c == '\U{205F}' ||
    c == '\U{3000}' || c == '\U{FEFF}'
  }

  /** The first position at or after `i` that does not hold white space (`|s|` when there is none). */
  function SkipSpaces(s: string, i: nat): (j: nat)
    requires i <= |s|
    ensures i <= j <= |s|
    ensures forall k :: i <= k < j ==> IsSpace(s[k])
    ensures j < |s| ==> !IsSpace(s[j])
    decreases |s| - i
  {
    if i < |s| && IsSpace(s[i]) then SkipSpaces(s, i + 1) else i
  }

  /** The end of `s[lo..j]` once its trailing white space is dropped. */
  function BackOverSpaces(s: string, lo: nat, j: nat): (i: nat)
    requires lo <= j <= |s|
    ensures lo <= i <= j
    ensures forall k :: i <= k < j ==> IsSpace(s[k])
    ensures i > lo ==> !IsSpace(s[i - 1])
  {
    if j > lo && IsSpace(s[j - 1]) then BackOverSpaces(s, lo, j - 1) else j
  }

  /** JavaScript's `String.prototype.trim`: `s` without its leading and trailing white space. */
  function Trim(s: string): (r: string)
  {
    var a := SkipSpaces(s, 0);
    s[a..BackOverSpaces(s, a, |s|)]
  }

  /** True when `s` has no white space at either end, that is, when trimming leaves it alone. */
  predicate IsTrimmed(s: string) {
    s == [] || (!IsSpace(s[0]) && !IsSpace(s[|s| - 1]))
  }

  /** True when `s` is empty or made of white space only; `BlankIffTrimEmpty` shows this is JavaScript's `!s.trim()`. */
  predicate IsBlank(s: string) {
    forall i :: 0 <= i < |s| ==> IsSpace(s[i])
  }

  /**
   * Trimming removes exactly white space from both ends and keeps the middle: the result is
   * the slice of `s` between the leading and the trailing white space, and it is trimmed.
   */
  lemma TrimShape(s: string)
    ensures IsTrimmed(Trim(s))
    ensures var a := SkipSpaces(s, 0); var b := a + |Trim(s)|;
      && b <= |s| && Trim(s) == s[a..b]
      && (forall i :: 0 <= i < a ==> IsSpace(s[i]))
      && (forall i :: b <= i < |s| ==> IsSpace(s[i]))
  {
    var a := SkipSpaces(s, 0);
    var b := BackOverSpaces(s, a, |s|);
    if a < b {
      assert Trim(s)[0] == s[a];
      assert Trim(s)[b - a - 1] == s[b - 1];
    }
  }

  /** Trimming a trimmed string changes nothing; in particular `Trim` is idempotent. */
  lemma TrimmedFixpoint(s: string)
    requires IsTrimmed(s)
    ensures Trim(s) == s
  {
    if s != [] {
      assert SkipSpaces(s, 0) == 0;
      assert BackOverSpaces(s, 0, |s|) == |s|;
    }
  }

  lemma TrimIdempotent(s: string)
    ensures Trim(Trim(s)) == Trim(s)
  {
    TrimShape(s);
    TrimmedFixpoint(Trim(s));
  }

  /** A string is blank exactly when trimming leaves nothing of it. */
  lemma BlankIffTrimEmpty(s: string)
    ensures IsBlank(s) <==> Trim(s) == []
  {
    var a := SkipSpaces(s, 0);
    var b := BackOverSpaces(s, a, |s|);
    if a < |s| {
      assert !IsSpace(s[a]);
      assert a < b;
    }
  }

  /**
   * An optional text field as the forms store it: absent when missing or blank, else trimmed
   * (zod's `trim().optional().or(literal(""))` with an empty-to-undefined transform on the server,
   * `if (jira && jira.trim()) t.jira = jira.trim()` in the planner).
   */
  function NonBlankTrimmed(v: Option<string>): (r: Option<string>)
    ensures r.None? <==> v.None? || IsBlank(v.value)
    ensures r.Some? ==> IsTrimmed(r.value) && r.value != [] && r.value == Trim(v.value)
  {
    if v.None? then None
    else
      TrimShape(v.value);
      var t := Trim(v.value);
      if t == [] then None else Some(t)
  }

  function ToLowerChar(c: char): char {
    if 'A' <= c <= 'Z' then (c as int + 32) as char else c
  }

  function ToUpperChar(c: char): char {
    if 'a' <= c <= 'z' then (c as int - 32) as char else c
  }

  /** `toLowerCase`, restricted to the ASCII letters. */
  function ToLower(s: string): (r: string)
    ensures |r| == |s|
    ensures forall i :: 0 <= i < |s| ==> r[i] == ToLowerChar(s[i])
  {
    seq(|s|, i requires 0 <= i < |s| => ToLowerChar(s[i]))
  }

  /** Two characters that are equal, or the upper- and lower-case forms of one ASCII letter. */
  predicate EqualIgnoringCase(a: char, b: char) {
    a == b || ('A' <= a <= 'Z' && b as int == a as int + 32) || ('A' <= b <= 'Z' && a as int == b as int + 32)
  }

  /** Two characters lower-case alike exactly when they are equal up to ASCII case. */
  lemma ToLowerCharMatches(a: char, b: char)
    ensures ToLowerChar(a) == ToLowerChar(b) <==> EqualIgnoringCase(a, b)
  {
  }

  /** Lower-casing leaves no upper-case ASCII letter, and keeps every other character as it is. */
  lemma ToLowerNoUpper(s: string)
    ensures forall i :: 0 <= i < |s| ==> !('A' <= ToLower(s)[i] <= 'Z')
    ensures forall i :: 0 <= i < |s| && !('A' <= s[i] <= 'Z') ==> ToLower(s)[i] == s[i]
    ensures forall i :: 0 <= i < |s| ==> EqualIgnoringCase(s[i], ToLower(s)[i])
  {
  }

  /** Lower-casing twice is lower-casing once. */
  lemma ToLowerIdempotent(s: string)
    ensures ToLower(ToLower(s)) == ToLower(s)
  {
    ToLowerNoUpper(s);
  }

  /**
   * The case-insensitive comparison `a.toLowerCase() === b.toLowerCase()`: it holds exactly when
   * the strings have the same length and agree position by position up to ASCII case.
   */
  lemma ToLowerMatches(s: string, t: string)
    ensures ToLower(s) == ToLower(t) <==> |s| == |t| && forall i :: 0 <= i < |s| ==> EqualIgnoringCase(s[i], t[i])
  {
    if |s| == |t| {
      forall i | 0 <= i < |s|
        ensures ToLower(s)[i] == ToLower(t)[i] <==> EqualIgnoringCase(s[i], t[i])
      {
        ToLowerCharMatches(s[i], t[i]);
      }
      if forall i :: 0 <= i < |s| ==> EqualIgnoringCase(s[i], t[i]) {
        assert forall i :: 0 <= i < |s| ==> ToLower(s)[i] == ToLower(t)[i];
      }
    }
  }

  predicate StartsWith(s: string, prefix: string) {
    |prefix| <= |s| && s[..|prefix|] == prefix
  }

  /** A prefix test that ignores the case of ASCII letters (a regular expression with the `i` flag). */
  predicate StartsWithIgnoringCase(s: string, prefix: string) {
    |prefix| <= |s| && ToLower(s[..|prefix|]) == ToLower(prefix)
  }

  /** The first position at or after `i` that holds white space (`|s|` when there is none). */
  function WordEnd(s: string, i: nat): (j: nat)
    requires i <= |s|
    ensures i <= j <= |s|
    ensures forall k :: i <= k < j ==> !IsSpace(s[k])
    ensures j < |s| ==> IsSpace(s[j])
    decreases |s| - i
  {
    if i < |s| && !IsSpace(s[i]) then WordEnd(s, i + 1) else i
  }

  /** `s.split(/\s+/).filter(Boolean)`: the maximal runs of non-white-space characters. */
  function Words(s: string): (ws: seq<string>)
    ensures forall w :: w in ws ==> w != [] && forall k :: 0 <= k < |w| ==> !IsSpace(w[k])
    ensures ws == [] <==> IsBlank(s)
    decreases |s|
  {
    var a := SkipSpaces(s, 0);
    if a == |s| then []
    else
      var b := WordEnd(s, a);
      var w := s[a..b];
      assert w != [] && forall k :: 0 <= k < |w| ==> !IsSpace(w[k]);
      [w] + Words(s[b..])
  }

  /** Skipping white space reads the same in `s` as in `p + s`, shifted by `|p|`. */
  lemma SkipSpacesShift(p: string, s: string, i: nat)
    requires i <= |s|
    ensures SkipSpaces(p + s, |p| + i) == |p| + SkipSpaces(s, i)
    decreases |s| - i
  {
    if i < |s| {
      assert (p + s)[|p| + i] == s[i];
      if IsSpace(s[i]) {
        SkipSpacesShift(p, s, i + 1);
      }
    }
  }

  /** Scanning a word reads the same in `s` as in `p + s`, shifted by `|p|`. */
  lemma WordEndShift(p: string, s: string, i: nat)
    requires i <= |s|
    ensures WordEnd(p + s, |p| + i) == |p| + WordEnd(s, i)
    decreases |s| - i
  {
    if i < |s| {
      assert (p + s)[|p| + i] == s[i];
      if !IsSpace(s[i]) {
        WordEndShift(p, s, i + 1);
      }
    }
  }

  /** A word ending at white space, or at the end of the string, is scanned to its end. */
  lemma WordEndOverWord(w: string, s: string, i: nat)
    requires i <= |w|
    requires forall k :: 0 <= k < |w| ==> !IsSpace(w[k])
    requires s == [] || IsSpace(s[0])
    ensures WordEnd(w + s, i) == |w|
    decreases |w| - i
  {
    if i < |w| {
      assert (w + s)[i] == w[i];
      WordEndOverWord(w, s, i + 1);
    } else if s != [] {
      assert (w + s)[i] == s[0];
    }
  }

  /** The first step of `Words`: the first word runs from the first non-white-space position to the next white space. */
  lemma WordsFirst(s: string) returns (a: nat, b: nat)
    ensures a == SkipSpaces(s, 0) && a <= b <= |s|
    ensures a == |s| ==> Words(s) == []
    ensures a < |s| ==> b == WordEnd(s, a) && Words(s) == [s[a..b]] + Words(s[b..])
  {
    a := SkipSpaces(s, 0);
    b := if a < |s| then WordEnd(s, a) else a;
  }

  /** Leading white space makes no word. */
  lemma WordsLeadingSpace(c: char, s: string)
    requires IsSpace(c)
    ensures Words([c] + s) == Words(s)
  {
    var t := [c] + s;
    assert SkipSpaces(t, 0) == 1 + SkipSpaces(s, 0) by {
      assert t[0] == c;
      SkipSpacesShift([c], s, 0);
      assert SkipSpaces(t, 0) == SkipSpaces(t, 1);
    }
    var a := SkipSpaces(s, 0);
    if a < |s| {
      WordEndShift([c], s, a);
      WordsShifted(c, s, a, WordEnd(s, a));
    }
  }

  /** The same first word, one position further on. */
  lemma WordsShifted(c: char, s: string, a: nat, b: nat)
    requires a < |s| && a == SkipSpaces(s, 0) && b == WordEnd(s, a)
    requires SkipSpaces([c] + s, 0) == 1 + a && WordEnd([c] + s, 1 + a) == 1 + b
    ensures Words([c] + s) == Words(s)
  {
    var t := [c] + s;
    assert t[1 + a..1 + b] == s[a..b];
    assert t[1 + b..] == s[b..];
  }

  /** A word followed by white space or by nothing is the first word. */
  lemma WordsLeadingWord(w: string, s: string)
    requires w != [] && forall k :: 0 <= k < |w| ==> !IsSpace(w[k])
    requires s == [] || IsSpace(s[0])
    ensures Words(w + s) == [w] + Words(s)
  {
    var t := w + s;
    assert t[0] == w[0];
    WordEndOverWord(w, s, 0);
    assert t[0..|w|] == w;
    assert t[|w|..] == s;
  }

  /** A single word without white space splits into itself. */
  lemma WordsOfWord(w: string)
    requires w != [] && forall k :: 0 <= k < |w| ==> !IsSpace(w[k])
    ensures Words(w) == [w]
  {
    WordsLeadingWord(w, []);
    assert w + [] == w;
  }

  /**
   * Splitting at white space: the words of `a`, a white-space character and `b` are the words of
   * `a` followed by the words of `b`. With `WordsOfWord` and the blank case this fixes `Words`:
   * the words are the maximal runs of non-white-space characters, in order.
   */
  lemma {:induction false} WordsAppend(a: string, c: char, b: string)
    requires IsSpace(c)
    ensures Words(a + [c] + b) == Words(a) + Words(b)
    decreases |a|
  {
    if a == [] {
      assert a + [c] + b == [c] + b;
      WordsLeadingSpace(c, b);
    } else {
      var w, rest := FirstRun(a);
      Regroup(a, w, rest, c, b);
      WordsAppend(rest, c, b);
      if IsSpace(a[0]) {
        AppendAfterSpace(a[0], rest, rest + [c] + b, b);
      } else {
        AppendAfterWord(w, rest, rest + [c] + b, b);
      }
    }
  }

  /** Splitting `a` as `w + rest` regroups `a + [c] + b`; the part after `w` starts with white space when `rest` does or is empty. */
  lemma Regroup(a: string, w: string, rest: string, c: char, b: string)
    requires a == w + rest && IsSpace(c)
    ensures a + [c] + b == w + (rest + [c] + b)
    ensures rest == [] || IsSpace(rest[0]) ==> IsSpace((rest + [c] + b)[0])
  {
    if rest != [] {
      assert (rest + [c] + b)[0] == rest[0];
    } else {
      assert (rest + [c] + b)[0] == c;
    }
  }

  /** The step of `WordsAppend` past one leading white-space character. */
  lemma AppendAfterSpace(d: char, rest: string, tail: string, b: string)
    requires IsSpace(d)
    requires Words(tail) == Words(rest) + Words(b)
    ensures Words([d] + tail) == Words([d] + rest) + Words(b)
  {
    WordsLeadingSpace(d, tail);
    WordsLeadingSpace(d, rest);
  }

  /** The step of `WordsAppend` past the leading word. */
  lemma AppendAfterWord(w: string, rest: string, tail: string, b: string)
    requires w != [] && forall k :: 0 <= k < |w| ==> !IsSpace(w[k])
    requires rest == [] || IsSpace(rest[0])
    requires tail != [] && IsSpace(tail[0])
    requires Words(tail) == Words(rest) + Words(b)
    ensures Words(w + tail) == Words(w + rest) + Words(b)
  {
    WordsLeadingWord(w, tail);
    WordsLeadingWord(w, rest);
    ConsAppend(w, Words(rest), Words(b));
  }

  lemma ConsAppend<T>(x: T, p: seq<T>, q: seq<T>)
    ensures [x] + (p + q) == [x] + p + q
  {
  }

  /** Two words separated by a space split into exactly those two words. */
  lemma TwoWords(a: string, b: string)
    requires a != [] && forall k :: 0 <= k < |a| ==> !IsSpace(a[k])
    requires b != [] && forall k :: 0 <= k < |b| ==> !IsSpace(b[k])
    ensures Words(a + [' '] + b) == [a, b]
  {
    WordsAppend(a, ' ', b);
    WordsOfWord(a);
    WordsOfWord(b);
  }

  /**
   * The first piece of a non-empty string: one white-space character, or the word at its start
   * together with the rest, which is empty or starts with white space.
   */
  lemma FirstRun(a: string) returns (w: string, rest: string)
    requires a != []
    ensures a == w + rest && |rest| < |a|
    ensures IsSpace(a[0]) ==> w == [a[0]]
    ensures !IsSpace(a[0]) ==> w != [] && (forall k :: 0 <= k < |w| ==> !IsSpace(w[k])) && (rest == [] || IsSpace(rest[0]))
  {
    if IsSpace(a[0]) {
      w, rest := [a[0]], a[1..];
    } else {
      var j := WordEnd(a, 0);
      assert j > 0;
      w, rest := a[..j], a[j..];
      assert forall k :: 0 <= k < |w| ==> w[k] == a[k];
    }
    assert a == w + rest;
  }

  /** The prefix of `s` before the first `c` (all of `s` when `c` does not occur). */
  function TakeUntil(s: string, c: char): (r: string)
    ensures |r| <= |s| && r == s[..|r|]
    ensures c !in r
    ensures |r| < |s| ==> s[|r|] == c
  {
    if s == [] || s[0] == c then [] else [s[0]] + TakeUntil(s[1..], c)
  }

  /** `s.split(c, 2)[1]`: the text between the first and the second `c`; nothing (`undefined`) when `c` does not occur. */
  function SecondField(s: string, c: char): (r: Option<string>)
    ensures r.None? <==> c !in s
    ensures r.Some? ==> c !in r.value
  {
    var head := TakeUntil(s, c);
    if |head| == |s| then None else Some(TakeUntil(s[|head| + 1..], c))
  }

  lemma {:induction false} TakeUntilTagged(tag: string, c: char, rest: string)
    requires c !in tag
    ensures TakeUntil(tag + [c] + rest, c) == tag
  {
    if tag != [] {
      assert (tag + [c] + rest)[1..] == tag[1..] + [c] + rest;
      TakeUntilTagged(tag[1..], c, rest);
    }
  }

  lemma TakeUntilWhole(s: string, c: char)
    requires c !in s
    ensures TakeUntil(s, c) == s
  {
  }

  /** A droppable id built as `tag:id` gives back `id`, provided neither part contains the separator. */
  lemma SecondFieldOfTagged(tag: string, c: char, id: string)
    requires c !in tag && c !in id
    ensures SecondField(tag + [c] + id, c) == Some(id)
  {
    var s := tag + [c] + id;
    TakeUntilTagged(tag, c, id);
    assert s[|tag| + 1..] == id;
    TakeUntilWhole(id, c);
  }
  /** The character of a decimal digit. */
  function DigitChar(d: nat): char
    requires d < 10
  {
    ('0' as int + d) as char
  }

  predicate IsDigit(c: char) {
    '0' <= c <= '9'
  }

  /** The decimal digits of `n`, most significant first, without leading zeros. */
  function NatDigits(n: nat): (r: string)
    ensures r != []
    ensures forall i :: 0 <= i < |r| ==> IsDigit(r[i])
  {
    if n < 10 then [DigitChar(n)] else NatDigits(n / 10) + [DigitChar(n % 10)]
  }

  /** How JavaScript writes an integral number as text (`String(n)`). */
  function Decimal(n: int): (r: string)
    ensures r != []
    ensures forall i :: 0 <= i < |r| ==> r[i] == '-' || IsDigit(r[i])
  {
    if n < 0 then "-" + NatDigits(-n) else NatDigits(n)
  }

  /** The value of a string of decimal digits. */
  function DigitsValue(s: string): int {
    if s == [] then 0 else DigitsValue(s[..|s| - 1]) * 10 + (s[|s| - 1] as int - '0' as int)
  }

  /** The value of an optionally signed string of decimal digits. */
  function DecimalValue(s: string): int {
    if s != [] && s[0] == '-' then -DigitsValue(s[1..]) else DigitsValue(s)
  }

  lemma {:induction false} NatDigitsValue(n: nat)
    ensures DigitsValue(NatDigits(n)) == n
  {
    if n >= 10 {
      var r := NatDigits(n);
      assert r[..|r| - 1] == NatDigits(n / 10);
      NatDigitsValue(n / 10);
    }
  }

  /** Writing an integer in decimal loses nothing: reading the text back gives the integer. */
  lemma DecimalRoundTrip(n: int)
    ensures DecimalValue(Decimal(n)) == n
  {
    if n < 0 {
      assert Decimal(n)[1..] == NatDigits(-n);
      NatDigitsValue(-n);
    } else {
      assert IsDigit(NatDigits(n)[0]);
      NatDigitsValue(n);
    }
  }

  /** The order of names compared character by character (Unicode scalar values), shorter first on a common prefix. */
  predicate NameLe(a: string, b: string) {
    a == [] || (b != [] && (a[0] < b[0] || (a[0] == b[0] && NameLe(a[1..], b[1..]))))
  }

  lemma {:induction false} NameLeTotal(a: string, b: string)
    ensures NameLe(a, b) || NameLe(b, a)
  {
    if a != [] && b != [] && a[0] == b[0] {
      NameLeTotal(a[1..], b[1..]);
    }
  }

  lemma {:induction false} NameLeTransitive(a: string, b: string, c: string)
    requires NameLe(a, b) && NameLe(b, c)
    ensures NameLe(a, c)
  {
    if a != [] && a[0] == b[0] && b[0] == c[0] {
      NameLeTransitive(a[1..], b[1..], c[1..]);
    }
  }
}
