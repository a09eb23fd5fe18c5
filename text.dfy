/** The string operations the handlers rely on: JavaScript's `String.prototype.split`
    with a one-character separator, `toLowerCase` on ASCII letters, an unanchored
    substring test, and the decimal form of a row id (`Number.prototype.toString`)
    together with the integer reading PostgreSQL gives such a string. */
module Text {
  import opened Wrappers

  // ---------------------------------------------------------------------------
  // split / join

  /** `parts.join(c)`: the parts with one separator between neighbours. */
  function Join(parts: seq<string>, c: char): string
    requires |parts| >= 1
  {
    if |parts| == 1 then parts[0] else parts[0] + [c] + Join(parts[1..], c)
  }

  /** `s.split(c)` for a one-character separator: the maximal runs between
      separators, empty runs included ("a  b" gives ["a", "", "b"], "" gives [""]). */
  function Split(s: string, c: char): (parts: seq<string>)
    ensures |parts| >= 1
    ensures forall i :: 0 <= i < |parts| ==> c !in parts[i]
    ensures Join(parts, c) == s
    decreases |s|
  {
    if |s| == 0 then [""]
    else
      var rest := Split(s[1..], c);
      if s[0] == c then
        assert ([""] + rest)[1..] == rest;
        [""] + rest
      else
        var first := [s[0]] + rest[0];
        assert ([first] + rest[1..])[1..] == rest[1..];
        assert |rest| > 1 ==> Join(rest, c) == rest[0] + [c] + Join(rest[1..], c);
        assert s == [s[0]] + s[1..];
        [first] + rest[1..]
  }

  /** One step of `Split`: a leading separator starts a new empty part, any other
      character joins the first part. */
  lemma SplitCons(ch: char, t: string, c: char)
    ensures Split([ch] + t, c) ==
              if ch == c then [""] + Split(t, c) else [[ch] + Split(t, c)[0]] + Split(t, c)[1..]
  {
    assert ([ch] + t)[1..] == t;
  }

  /** Splitting at a separator splits each side on its own. */
  lemma {:induction false} SplitAtSeparator(x: string, c: char, w: string)
    ensures Split(x + [c] + w, c) == Split(x, c) + Split(w, c)
    decreases |x|
  {
    if |x| == 0 {
      assert x + [c] + w == [c] + w;
      SplitCons(c, w, c);
    } else {
      var t := x[1..] + [c] + w;
      assert x + [c] + w == [x[0]] + t;
      assert x == [x[0]] + x[1..];
      SplitAtSeparator(x[1..], c, w);
      SplitCons(x[0], t, c);
      SplitCons(x[0], x[1..], c);
      PrependToFirstPart(x[0], x[0] == c, Split(x[1..], c), Split(w, c));
    }
  }

  /** The sequence algebra behind one step of `SplitAtSeparator`. */
  lemma PrependToFirstPart(ch: char, newPart: bool, px: seq<string>, pw: seq<string>)
    requires |px| >= 1
    ensures var r := px + pw;
            (if newPart then [""] + r else [[ch] + r[0]] + r[1..]) ==
            (if newPart then [""] + px else [[ch] + px[0]] + px[1..]) + pw
  {
    var r := px + pw;
    assert r[0] == px[0];
    assert r[1..] == px[1..] + pw;
    if newPart {
      assert [""] + r == ([""] + px) + pw;
    } else {
      var head := [[ch] + px[0]];
      assert head + r[1..] == (head + px[1..]) + pw;
    }
  }

  /** A word free of the separator, followed by the separator, splits off as the first part. */
  lemma SplitAfterWord(w: string, c: char, t: string)
    requires c !in w
    ensures Split(w + [c] + t, c) == [w] + Split(t, c)
  {
    SplitAtSeparator(w, c, t);
    SplitWord(w, c);
  }

  /** A word free of the separator splits into itself alone. */
  lemma {:induction false} SplitWord(w: string, c: char)
    requires c !in w
    ensures Split(w, c) == [w]
    decreases |w|
  {
    if |w| > 0 {
      SplitWord(w[1..], c);
      assert [w[0]] + w[1..] == w;
    }
  }

  /** Splitting undoes joining, as long as no part contains the separator. */
  lemma {:induction false} SplitJoin(parts: seq<string>, c: char)
    requires |parts| >= 1
    requires forall i :: 0 <= i < |parts| ==> c !in parts[i]
    ensures Split(Join(parts, c), c) == parts
    decreases |parts|
  {
    if |parts| == 1 {
      SplitWord(parts[0], c);
    } else {
      SplitJoin(parts[1..], c);
      SplitAfterWord(parts[0], c, Join(parts[1..], c));
      assert [parts[0]] + parts[1..] == parts;
    }
  }

  /** `s.split(c).pop()`: the text after the last separator, the whole string when there is none. */
  function LastSegment(s: string, c: char): (r: string)
    ensures c !in r
    ensures r == s || exists k :: 0 <= k < |s| && s[k] == c && s[k + 1..] == r
  {
    var parts := Split(s, c);
    LastPartIsSuffix(parts, c);
    parts[|parts| - 1]
  }

  /** The text after a separator, when it holds no separator itself, is the last segment. */
  lemma LastSegmentAfter(x: string, c: char, w: string)
    requires c !in w
    ensures LastSegment(x + [c] + w, c) == w
  {
    SplitAtSeparator(x, c, w);
    SplitWord(w, c);
  }

  /** The last part of a split list ends its join, right after a separator when there are several parts. */
  lemma {:induction false} LastPartIsSuffix(parts: seq<string>, c: char)
    requires |parts| >= 1
    ensures var s := Join(parts, c);
            var r := parts[|parts| - 1];
            r == s || exists k :: 0 <= k < |s| && s[k] == c && s[k + 1..] == r
    decreases |parts|
  {
    if |parts| > 1 {
      var s := Join(parts, c);
      var tail := Join(parts[1..], c);
      var r := parts[|parts| - 1];
      LastPartIsSuffix(parts[1..], c);
      assert s == parts[0] + [c] + tail;
      var p := |parts[0]|;
      if r == tail {
        assert s[p] == c && s[p + 1..] == r;
      } else {
        var k :| 0 <= k < |tail| && tail[k] == c && tail[k + 1..] == r;
        assert s[p + 1 + k] == c && s[p + 1 + k + 1..] == r;
      }
    }
  }

  // ---------------------------------------------------------------------------
  // toLowerCase

  function LowerChar(ch: char): char {
    if 'A' <= ch <= 'Z' then (ch as int - 'A' as int + 'a' as int) as char else ch
  }

  /** `s.toLowerCase()` on the ASCII letters; every other character is kept. */
  function Lower(s: string): (r: string)
    ensures |r| == |s|
    ensures forall i :: 0 <= i < |s| ==> r[i] == LowerChar(s[i])
  {
    seq(|s|, i requires 0 <= i < |s| => LowerChar(s[i]))
  }

  // ---------------------------------------------------------------------------
  // unanchored substring test

  ghost predicate OccursAt(w: string, s: string, i: int) {
    0 <= i && i + |w| <= |s| && s[i..i + |w|] == w
  }

  /** Whether `w[j..]` matches `s` from position `i + j` on, character by character. */
  function MatchAt(s: string, w: string, i: nat, j: nat): bool
    requires i + |w| <= |s| && j <= |w|
    decreases |w| - j
  {
    j == |w| || (s[i + j] == w[j] && MatchAt(s, w, i, j + 1))
  }

  lemma {:induction false} MatchAtSlice(s: string, w: string, i: nat, j: nat)
    requires i + |w| <= |s| && j <= |w|
    ensures MatchAt(s, w, i, j) <==> s[i + j..i + |w|] == w[j..]
    decreases |w| - j
  {
    if j < |w| {
      MatchAtSlice(s, w, i, j + 1);
      assert s[i + j..i + |w|] == [s[i + j]] + s[i + j + 1..i + |w|];
      assert w[j..] == [w[j]] + w[j + 1..];
    }
  }

  /** Whether `w` occurs in `s` at position `from` or later. */
  function ContainsFrom(s: string, w: string, from: nat): bool
    decreases |s| - from
  {
    if from + |w| > |s| then false
    else if MatchAt(s, w, from, 0) then true
    else ContainsFrom(s, w, from + 1)
  }

  /** Whether `w` occurs somewhere in `s`: what an unanchored regular expression that
      consists of the literal `w` answers to `test(s)`. */
  function Contains(s: string, w: string): bool {
    ContainsFrom(s, w, 0)
  }

  /** The scan from `from` finds exactly the occurrences at `from` or later. */
  lemma {:induction false} ContainsFromOccurs(s: string, w: string, from: nat)
    ensures ContainsFrom(s, w, from) <==> exists i :: from <= i && OccursAt(w, s, i)
    decreases |s| - from
  {
    if from + |w| > |s| {
    } else if MatchAt(s, w, from, 0) {
      MatchAtSlice(s, w, from, 0);
      assert OccursAt(w, s, from);
    } else {
      MatchAtSlice(s, w, from, 0);
      ContainsFromOccurs(s, w, from + 1);
      assert !OccursAt(w, s, from);
      assert forall i :: from <= i && OccursAt(w, s, i) ==> from + 1 <= i;
    }
  }

  /** `Contains` holds exactly when the word occurs at some position. */
  lemma ContainsOccurs(s: string, w: string)
    ensures Contains(s, w) <==> exists i :: OccursAt(w, s, i)
  {
    ContainsFromOccurs(s, w, 0);
  }

  /** A word with a character that `s` lacks does not occur in `s`. */
  lemma MissingCharNotContained(s: string, w: string, j: nat)
    requires j < |w| && w[j] !in s
    ensures !Contains(s, w)
  {
    forall i | 0 <= i && i + |w| <= |s|
      ensures !OccursAt(w, s, i)
    {
      assert s[i..i + |w|][j] == s[i + j];
    }
    ContainsOccurs(s, w);
  }

  // ---------------------------------------------------------------------------
  // decimal ids

  predicate IsDigit(ch: char) { '0' <= ch <= '9' }

  function DigitChar(d: nat): char
    requires d < 10
  {
    ('0' as int + d) as char
  }

  /** The value of a string of decimal digits. */
  function DigitsValue(s: string): nat
    requires forall i :: 0 <= i < |s| ==> IsDigit(s[i])
  {
    if s == [] then 0
    else
      assert IsDigit(s[|s| - 1]);
      DigitsValue(s[..|s| - 1]) * 10 + (s[|s| - 1] as int - '0' as int)
  }

  /** `n.toString()` for a non-negative integer. */
  function DecimalString(n: nat): (s: string)
    ensures |s| >= 1
    ensures forall i :: 0 <= i < |s| ==> IsDigit(s[i])
  {
    if n < 10 then [DigitChar(n)] else DecimalString(n / 10) + [DigitChar(n % 10)]
  }

  /** A non-empty string of decimal digits read as a number; anything else is refused. */
  function ParseDecimal(s: string): (r: Option<nat>)
    ensures r.Some? <==> |s| > 0 && forall i :: 0 <= i < |s| ==> IsDigit(s[i])
  {
    if |s| > 0 && forall i :: 0 <= i < |s| ==> IsDigit(s[i]) then Some(DigitsValue(s)) else None
  }

  /** Reading back the decimal form of a number gives the number. */
  lemma {:induction false} DecimalRoundTrip(n: nat)
    ensures ParseDecimal(DecimalString(n)) == Some(n)
  {
    var s := DecimalString(n);
    if n < 10 {
      assert s[..|s| - 1] == [];
      assert s[|s| - 1] as int == '0' as int + n;
      assert DigitsValue(s) == DigitsValue([]) * 10 + n;
    } else {
      DecimalRoundTrip(n / 10);
      assert s[..|s| - 1] == DecimalString(n / 10);
    }
  }
}
