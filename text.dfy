/** The string primitives the dealer core relies on: the regular-expression
    replacement and trimming of the name setter, ordinal string order,
    ASCII lower-casing and decimal digits. */
module Text {
  import opened Results

  // ---------------------------------------------------------------------------
  // Character classes

  /** The regular-expression class \w, restricted to ASCII letters, digits and '_'. */
  predicate IsWordChar(c: char) {
    ('a' <= c <= 'z') || ('A' <= c <= 'Z') || ('0' <= c <= '9') || c == '_'
  }

  /** The characters char.IsWhiteSpace accepts, which string.Trim removes at both ends. */
  predicate IsWhiteSpace(c: char)
    ensures IsWhiteSpace(c) ==> !IsWordChar(c)
  {
    c == ' ' || ('\t' <= c <= '\r') || c == '\U{85}' || c == '\U{A0}' || c == '\U{1680}'
    || ('\U{2000}' <= c <= '\U{200A}') || c == '\U{2028}' || c == '\U{2029}'
    || c == '\U{202F}' || c == '\U{205F}' || c == '\U{3000}'
  }

  /** Only word characters and single spaces: what replacing every run of
      non-word characters by one space leaves behind. */
  predicate Collapsed(t: string) {
    && (forall i :: 0 <= i < |t| ==> IsWordChar(t[i]) || t[i] == ' ')
    && (forall i, j :: 0 <= i < |t| && 0 <= j < |t| && j == i + 1 ==> t[i] != ' ' || t[j] != ' ')
  }

  // ---------------------------------------------------------------------------
  // Regex.Replace(s, @"\W+", " ")

  /** The first index at or after `i` that holds a word character, or |s|. */
  function NextWordIndex(s: string, i: nat): (k: nat)
    requires i <= |s|
    ensures i <= k <= |s| && (k == |s| || IsWordChar(s[k]))
    ensures forall j :: i <= j < k ==> !IsWordChar(s[j])
    decreases |s| - i
  {
    if i < |s| && !IsWordChar(s[i]) then NextWordIndex(s, i + 1) else i
  }

  /** Every maximal run of non-word characters replaced by a single space. */
  function ReplaceNonWordRuns(s: string): (r: string)
    ensures Collapsed(r)
    ensures s == [] <==> r == []
    ensures s != [] ==> (r[0] == ' ' <==> !IsWordChar(s[0]))
    decreases |s|
  {
    if s == [] then []
    else if IsWordChar(s[0]) then [s[0]] + ReplaceNonWordRuns(s[1..])
    else [' '] + ReplaceNonWordRuns(s[NextWordIndex(s, 1)..])
  }

  /** The word characters of `s`, in order. */
  function WordChars(s: string): (r: string)
    ensures forall i :: 0 <= i < |r| ==> IsWordChar(r[i])
  {
    if s == [] then [] else (if IsWordChar(s[0]) then [s[0]] else []) + WordChars(s[1..])
  }

  lemma {:induction false} WordCharsOfConcat(a: string, b: string)
    ensures WordChars(a + b) == WordChars(a) + WordChars(b)
    decreases |a|
  {
    if a != [] {
      var head := if IsWordChar(a[0]) then [a[0]] else [];
      assert (a + b)[0] == a[0] && (a + b)[1..] == a[1..] + b;
      WordCharsOfConcat(a[1..], b);
      assert WordChars(a + b) == head + WordChars(a[1..] + b);
      assert WordChars(a) == head + WordChars(a[1..]);
    } else {
      assert a + b == b;
    }
  }

  lemma {:induction false} WordCharsOfNonWord(s: string)
    requires forall i :: 0 <= i < |s| ==> !IsWordChar(s[i])
    ensures WordChars(s) == []
    decreases |s|
  {
    if s != [] {
      WordCharsOfNonWord(s[1..]);
    }
  }

  /** Dropping a prefix of characters that are not word characters keeps the word characters. */
  lemma WordCharsAfterPrefix(s: string, k: nat)
    requires k <= |s|
    requires forall i :: 0 <= i < k ==> !IsWordChar(s[i])
    ensures WordChars(s[k..]) == WordChars(s)
  {
    assert s == s[..k] + s[k..];
    WordCharsOfConcat(s[..k], s[k..]);
    WordCharsOfNonWord(s[..k]);
  }

  /** Concatenation regroups freely. */
  lemma Assoc<T>(a: seq<T>, b: seq<T>, c: seq<T>)
    ensures a + b + c == a + (b + c)
  {
  }

  /** A sequence is its three slices cut at `a` and `b`, put back together. */
  lemma SplitThree<T>(s: seq<T>, a: nat, b: nat)
    requires a <= b <= |s|
    ensures s == s[..a] + (s[a..b] + s[b..])
  {
  }

  /** Ends that hold no word character add no word characters. */
  lemma WordCharsOfFramed(pre: string, mid: string, post: string)
    requires forall i :: 0 <= i < |pre| ==> !IsWordChar(pre[i])
    requires forall i :: 0 <= i < |post| ==> !IsWordChar(post[i])
    ensures WordChars(pre + (mid + post)) == WordChars(mid)
  {
    WordCharsOfConcat(pre, mid + post);
    WordCharsOfConcat(mid, post);
    WordCharsOfNonWord(pre);
    WordCharsOfNonWord(post);
  }

  /** Cutting off ends that hold no word character keeps the word characters. */
  lemma WordCharsOfSlice(s: string, a: nat, b: nat)
    requires a <= b <= |s|
    requires forall i :: 0 <= i < a ==> !IsWordChar(s[i])
    requires forall i :: b <= i < |s| ==> !IsWordChar(s[i])
    ensures WordChars(s[a..b]) == WordChars(s)
  {
    var pre, mid, post := s[..a], s[a..b], s[b..];
    SplitThree(s, a, b);
    assert forall i :: 0 <= i < |post| ==> post[i] == s[b + i];
    WordCharsOfFramed(pre, mid, post);
  }

  /** The replacement keeps every word character, in order. */
  lemma {:induction false} ReplaceKeepsWordChars(s: string)
    ensures WordChars(ReplaceNonWordRuns(s)) == WordChars(s)
    decreases |s|
  {
    if s != [] {
      if IsWordChar(s[0]) {
        var t := ReplaceNonWordRuns(s[1..]);
        assert ([s[0]] + t)[1..] == t;
        ReplaceKeepsWordChars(s[1..]);
      } else {
        var k := NextWordIndex(s, 1);
        var t := ReplaceNonWordRuns(s[k..]);
        assert ([' '] + t)[1..] == t;
        ReplaceKeepsWordChars(s[k..]);
        WordCharsAfterPrefix(s, k);
      }
    }
  }

  /** A collapsed string is left as it is by the replacement. */
  lemma {:induction false} CollapsedIsFixedPoint(t: string)
    requires Collapsed(t)
    ensures ReplaceNonWordRuns(t) == t
    decreases |t|
  {
    if t != [] {
      var rest := t[1..];
      assert Collapsed(rest) by {
        forall i | 0 <= i < |rest| ensures IsWordChar(rest[i]) || rest[i] == ' ' {
          assert rest[i] == t[i + 1];
        }
        forall i | 0 <= i < |rest| - 1 ensures rest[i] != ' ' || rest[i + 1] != ' ' {
          assert rest[i] == t[i + 1] && rest[i + 1] == t[i + 2];
        }
      }
      CollapsedIsFixedPoint(rest);
      if !IsWordChar(t[0]) {
        assert rest == [] || IsWordChar(rest[0]) by {
          if rest != [] {
            assert t[0] == ' ' && rest[0] == t[1];
          }
        }
        assert NextWordIndex(t, 1) == 1;
      }
      assert t == [t[0]] + rest;
    }
  }

  /** A prefix of word characters is copied through unchanged. */
  lemma {:induction false} ReplaceWordPrefix(w: string, rest: string)
    requires forall i :: 0 <= i < |w| ==> IsWordChar(w[i])
    ensures ReplaceNonWordRuns(w + rest) == w + ReplaceNonWordRuns(rest)
    decreases |w|
  {
    if w != [] {
      assert (w + rest)[0] == w[0] && (w + rest)[1..] == w[1..] + rest;
      ReplaceWordPrefix(w[1..], rest);
      assert w == [w[0]] + w[1..];
    } else {
      assert w + rest == rest;
    }
  }

  /** A whole run of non-word characters becomes one space. */
  lemma ReplaceNonWordPrefix(n: string, rest: string)
    requires n != [] && forall i :: 0 <= i < |n| ==> !IsWordChar(n[i])
    requires rest == [] || IsWordChar(rest[0])
    ensures ReplaceNonWordRuns(n + rest) == " " + ReplaceNonWordRuns(rest)
  {
    var s := n + rest;
    assert s[|n|..] == rest;
  }

  // ---------------------------------------------------------------------------
  // string.Trim()

  /** The first index at or after `i` that does not hold white space, or |s|. */
  function NextNonWhiteSpace(s: string, i: nat): (k: nat)
    requires i <= |s|
    ensures i <= k <= |s| && (k == |s| || !IsWhiteSpace(s[k]))
    ensures forall j :: i <= j < k ==> IsWhiteSpace(s[j])
    decreases |s| - i
  {
    if i < |s| && IsWhiteSpace(s[i]) then NextNonWhiteSpace(s, i + 1) else i
  }

  /** The least `k <= j` such that `s[k..j]` is all white space. */
  function WhiteSpaceTailStart(s: string, j: nat): (k: nat)
    requires j <= |s|
    ensures k <= j && (k == 0 || !IsWhiteSpace(s[k - 1]))
    ensures forall m :: k <= m < j ==> IsWhiteSpace(s[m])
  {
    if j > 0 && IsWhiteSpace(s[j - 1]) then WhiteSpaceTailStart(s, j - 1) else j
  }

  /** White space removed from both ends; a string with none at its ends is returned as it is. */
  function Trim(s: string): (r: string)
    ensures r == [] || (!IsWhiteSpace(r[0]) && !IsWhiteSpace(r[|r| - 1]))
    ensures (s == [] || (!IsWhiteSpace(s[0]) && !IsWhiteSpace(s[|s| - 1]))) ==> r == s
  {
    var a := NextNonWhiteSpace(s, 0);
    if a == |s| then [] else s[a..WhiteSpaceTailStart(s, |s|)]
  }

  /** Behind a first character that is not white space, the tail of white
      space starts at the same place in `p + x` as in `x`, shifted by |p|. */
  lemma {:induction false} TailStartAfterPrefix(p: string, x: string, j: nat)
    requires 1 <= j <= |x| && !IsWhiteSpace(x[0])
    ensures WhiteSpaceTailStart(p + x, |p| + j) == |p| + WhiteSpaceTailStart(x, j)
    decreases j
  {
    assert (p + x)[|p| + j - 1] == x[j - 1];
    if IsWhiteSpace(x[j - 1]) {
      TailStartAfterPrefix(p, x, j - 1);
    }
  }

  /** Trimming text that starts with no white space only trims its end, so a
      prefix that starts with no white space is kept as it is. */
  lemma TrimAfterPrefix(p: string, x: string)
    requires p != [] && !IsWhiteSpace(p[0])
    requires x != [] && !IsWhiteSpace(x[0])
    ensures Trim(p + x) == p + Trim(x)
  {
    var s := p + x;
    assert s[0] == p[0];
    TailStartAfterPrefix(p, x, |x|);
    var k := WhiteSpaceTailStart(x, |x|);
    assert s[..|p| + k] == p + x[..k];
  }

  /** Trim cuts a slice out of `s`, and everything it cuts off is white space. */
  lemma TrimIsSlice(s: string) returns (a: nat, b: nat)
    ensures a <= b <= |s| && Trim(s) == s[a..b]
    ensures forall i :: 0 <= i < a ==> IsWhiteSpace(s[i])
    ensures forall i :: b <= i < |s| ==> IsWhiteSpace(s[i])
  {
    a := NextNonWhiteSpace(s, 0);
    if a == |s| {
      b := a;
    } else {
      b := WhiteSpaceTailStart(s, |s|);
    }
  }

  // ---------------------------------------------------------------------------
  // Ordinal string order (string.CompareTo, abstracted as a total order)

  /** Lexicographic order on character codes: -1, 0 or 1. */
  function CompareOrdinal(a: string, b: string): (r: int)
    ensures -1 <= r <= 1
    ensures r == 0 <==> a == b
  {
    if a == [] && b == [] then 0
    else if a == [] then -1
    else if b == [] then 1
    else if a[0] < b[0] then -1
    else if a[0] > b[0] then 1
    else
      assert a == [a[0]] + a[1..] && b == [b[0]] + b[1..];
      CompareOrdinal(a[1..], b[1..])
  }

  lemma {:induction false} CompareOrdinalAntisymmetric(a: string, b: string)
    ensures CompareOrdinal(a, b) == -CompareOrdinal(b, a)
    decreases |a|
  {
    if a != [] && b != [] && a[0] == b[0] {
      CompareOrdinalAntisymmetric(a[1..], b[1..]);
    }
  }

  lemma {:induction false} CompareOrdinalTransitive(a: string, b: string, c: string)
    requires CompareOrdinal(a, b) < 0 && CompareOrdinal(b, c) < 0
    ensures CompareOrdinal(a, c) < 0
    decreases |a|
  {
    if a != [] && b != [] && c != [] && a[0] == b[0] && b[0] == c[0] {
      CompareOrdinalTransitive(a[1..], b[1..], c[1..]);
    }
  }

  // ---------------------------------------------------------------------------
  // string.Replace(char, char) and string.ToLower()

  function ReplaceChar(s: string, from: char, to: char): (r: string)
    ensures |r| == |s|
    ensures forall i :: 0 <= i < |s| ==> r[i] == if s[i] == from then to else s[i]
  {
    seq(|s|, i requires 0 <= i < |s| => if s[i] == from then to else s[i])
  }

  /** Lower-casing of ASCII letters; every other character is kept. */
  function LowerChar(c: char): char {
    if 'A' <= c <= 'Z' then (c as int + 32) as char else c
  }

  function ToLower(s: string): (r: string)
    ensures |r| == |s|
    ensures forall i :: 0 <= i < |s| ==> r[i] == LowerChar(s[i])
  {
    seq(|s|, i requires 0 <= i < |s| => LowerChar(s[i]))
  }

  // ---------------------------------------------------------------------------
  // Decimal digits

  predicate IsDigit(c: char) {
    '0' <= c <= '9'
  }

  predicate AllDigits(s: string) {
    forall i :: 0 <= i < |s| ==> IsDigit(s[i])
  }

  function DigitChar(d: nat): (c: char)
    requires d < 10
    ensures IsDigit(c) && c as int - '0' as int == d
  {
    ('0' as int + d) as char
  }

  /** The number a string of decimal digits denotes (most significant first). */
  function DigitsValue(s: string): nat
    requires AllDigits(s)
  {
    if s == [] then 0 else DigitsValue(s[..|s| - 1]) * 10 + (s[|s| - 1] as int - '0' as int)
  }

  function Pow10(w: nat): (p: nat)
    ensures p >= 1
  {
    if w == 0 then 1 else 10 * Pow10(w - 1)
  }

  /** Shortest decimal form of `n`, as int.ToString prints it. */
  function NatToString(n: nat): (r: string)
    ensures |r| >= 1 && AllDigits(r)
  {
    if n < 10 then [DigitChar(n)] else NatToString(n / 10) + [DigitChar(n % 10)]
  }

  /** Exactly `width` digits, zero-padded on the left (format "D2", "D4"). */
  function PadDigits(n: nat, width: nat): (r: string)
    ensures |r| == width && AllDigits(r)
  {
    if width == 0 then [] else PadDigits(n / 10, width - 1) + [DigitChar(n % 10)]
  }

  /** Decimal form of a signed integer, with a leading '-' for a negative one. */
  function IntToString(i: int): (r: string)
    ensures |r| >= 1 && (r[0] == '-' <==> i < 0)
  {
    if i < 0 then "-" + NatToString(-i) else NatToString(i)
  }

  /** Reads an optionally negative decimal integer. */
  function ParseInt(s: string): Option<int> {
    if |s| >= 2 && s[0] == '-' && AllDigits(s[1..]) then Some(-(DigitsValue(s[1..]) as int))
    else if |s| >= 1 && AllDigits(s) then Some(DigitsValue(s))
    else None
  }

  /** Convert.ToUInt16 of a string of digits: fails unless the value fits 16 bits. */
  function ParseUInt16(s: string): (r: Option<nat>)
    ensures r.Some? ==> r.value < 0x1_0000
  {
    if |s| >= 1 && AllDigits(s) && DigitsValue(s) < 0x1_0000 then Some(DigitsValue(s)) else None
  }

  lemma {:induction false} NatToStringRoundTrip(n: nat)
    ensures DigitsValue(NatToString(n)) == n
    decreases n
  {
    var s := NatToString(n);
    if n >= 10 {
      NatToStringRoundTrip(n / 10);
      assert s[..|s| - 1] == NatToString(n / 10);
    }
  }

  lemma {:induction false} PadDigitsRoundTrip(n: nat, width: nat)
    requires n < Pow10(width)
    ensures DigitsValue(PadDigits(n, width)) == n
    decreases width
  {
    if width > 0 {
      var s := PadDigits(n, width);
      assert n / 10 < Pow10(width - 1);
      PadDigitsRoundTrip(n / 10, width - 1);
      assert s[..|s| - 1] == PadDigits(n / 10, width - 1);
    }
  }

  lemma IntToStringRoundTrip(i: int)
    ensures ParseInt(IntToString(i)) == Some(i)
  {
    if i < 0 {
      var t := NatToString(-i);
      NatToStringRoundTrip(-i);
      assert ("-" + t)[1..] == t;
    } else {
      NatToStringRoundTrip(i);
    }
  }

  lemma ParseUInt16RoundTrip(n: nat)
    requires n < 0x1_0000
    ensures ParseUInt16(NatToString(n)) == Some(n)
  {
    NatToStringRoundTrip(n);
  }

  /** decimal.Parse's accepted text, simplified: an optional sign, digits, and
      an optional fraction after one '.', with at least one digit. */
  predicate IsDecimalText(s: string)
    ensures IsDecimalText(s) ==> forall i :: 0 <= i < |s| ==>
      IsDigit(s[i]) || s[i] == '.' || (i == 0 && (s[i] == '-' || s[i] == '+'))
  {
    var body := Unsigned(s);
    exists k :: 0 <= k <= |body| && DecimalBody(body, k)
  }

  /** `body[..k]` are the integral digits, `body[k..]` is empty or a '.' followed by digits. */
  predicate DecimalBody(body: string, k: nat)
    requires k <= |body|
  {
    && AllDigits(body[..k])
    && (k == |body| || (body[k] == '.' && AllDigits(body[k + 1..])))
    && (k > 0 || |body| > k + 1)
  }

  /** The text after an optional leading sign, as `IsDecimalText` reads it. */
  function Unsigned(s: string): string {
    if s != [] && (s[0] == '-' || s[0] == '+') then s[1..] else s
  }

  /** An accepted price holds at least one digit. */
  lemma DecimalTextHasDigit(s: string)
    requires IsDecimalText(s)
    ensures exists i :: 0 <= i < |s| && IsDigit(s[i])
  {
    var body := Unsigned(s);
    var k :| 0 <= k <= |body| && DecimalBody(body, k);
    var off := if s != [] && (s[0] == '-' || s[0] == '+') then 1 else 0;
    assert body == s[off..];
    if k > 0 {
      assert IsDigit(body[..k][0]);
      assert s[off] == body[0];
    } else {
      assert IsDigit(body[k + 1..][0]);
      assert s[off + k + 1] == body[k + 1];
    }
  }

  /** Every form the model accepts: a sign or none, integral digits, and a
      fraction after '.', with a digit on at least one side of the point. */
  lemma DecimalTextOf(sign: string, a: string, b: string)
    requires sign == "" || sign == "-" || sign == "+"
    requires AllDigits(a) && AllDigits(b) && |a| + |b| > 0
    ensures IsDecimalText(sign + a + "." + b)
    ensures a != [] ==> IsDecimalText(sign + a)
  {
    var body := a + "." + b;
    assert body[..|a|] == a && body[|a|] == '.' && body[|a| + 1..] == b;
    assert DecimalBody(body, |a|);
    var t := sign + a + "." + b;
    assert t == sign + body;
    assert Unsigned(t) == body by {
      if sign != "" { assert t[1..] == body; } else { assert t[0] == body[0]; }
    }
    if a != [] {
      assert a[..|a|] == a;
      assert DecimalBody(a, |a|);
      var u := sign + a;
      assert Unsigned(u) == a by {
        if sign != "" { assert u[1..] == a; } else { assert u == a; assert IsDigit(u[0]); }
      }
    }
  }
}
