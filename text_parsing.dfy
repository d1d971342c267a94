/**
 * The pieces of Foundation string handling that the mesh reader relies on:
 * splitting a string at every character of a character set (empty pieces
 * included, as `componentsSeparatedByCharactersInSet` does), the
 * `filter`/`flatMap` steps of a Swift pipeline, and the decimal readings
 * of a token performed by `Int(String)` and `Float(String)`.
 */
module TextParsing {
  import opened Results

  /** Foundation's newline character set: U+000A..U+000D, U+0085, U+2028, U+2029. */
  predicate IsNewline(c: char) {
    ('\n' <= c <= '\r') || c == '\U{0085}' || c == '\U{2028}' || c == '\U{2029}'
  }

  /** Foundation's whitespace character set: tab and the space separators (Zs). */
  predicate IsWhitespace(c: char) {
    c == ' ' || c == '\t' || c == '\U{00A0}' || c == '\U{1680}'
    || ('\U{2000}' <= c <= '\U{200A}')
    || c == '\U{202F}' || c == '\U{205F}' || c == '\U{3000}'
  }

  /** `s` contains no separator character. */
  predicate Free(s: string, isSep: char -> bool) {
    forall i :: 0 <= i < |s| ==> !isSep(s[i])
  }

  function SepCount(s: string, isSep: char -> bool): nat
    decreases |s|
  {
    if |s| == 0 then 0
    else (if isSep(s[0]) then 1 else 0) + SepCount(s[1..], isSep)
  }

  /**
   * `componentsSeparatedByCharactersInSet`: the pieces between separators,
   * in order; two adjacent separators produce an empty piece, and the
   * empty string gives [""].
   */
  function Split(s: string, isSep: char -> bool): (parts: seq<string>)
    ensures |parts| >= 1
    decreases |s|
  {
    if |s| == 0 then [""]
    else
      var rest := Split(s[1..], isSep);
      if isSep(s[0]) then [""] + rest
      else [[s[0]] + rest[0]] + rest[1..]
  }

  /** One piece more than there are separators, none of them containing a separator. */
  lemma {:induction false} SplitShape(s: string, isSep: char -> bool)
    ensures |Split(s, isSep)| == SepCount(s, isSep) + 1
    ensures forall k :: 0 <= k < |Split(s, isSep)| ==> Free(Split(s, isSep)[k], isSep)
    decreases |s|
  {
    if |s| > 0 {
      SplitShape(s[1..], isSep);
      var rest := Split(s[1..], isSep);
      if !isSep(s[0]) {
        var first := [s[0]] + rest[0];
        assert forall i :: 1 <= i < |first| ==> first[i] == rest[0][i - 1];
      }
    }
  }

  /** The pieces glued back together with `sep` between neighbours. */
  function Join(parts: seq<string>, sep: char): string
    decreases |parts|
  {
    if |parts| == 0 then ""
    else if |parts| == 1 then parts[0]
    else parts[0] + [sep] + Join(parts[1..], sep)
  }

  lemma JoinCons(head: string, rest: seq<string>, sep: char)
    requires |rest| >= 1
    ensures Join([head] + rest, sep) == head + [sep] + Join(rest, sep)
  {
    assert ([head] + rest)[1..] == rest;
  }

  lemma {:induction false} SplitFree(s: string, isSep: char -> bool)
    requires Free(s, isSep)
    ensures Split(s, isSep) == [s]
    decreases |s|
  {
    if |s| > 0 {
      SplitFree(s[1..], isSep);
      assert [s[0]] + s[1..] == s;
    }
  }

  lemma SplitCons(x: char, t: string, isSep: char -> bool)
    ensures Split([x] + t, isSep)
            == if isSep(x) then [""] + Split(t, isSep)
               else [[x] + Split(t, isSep)[0]] + Split(t, isSep)[1..]
  {
    assert ([x] + t)[0] == x && ([x] + t)[1..] == t;
  }

  /** Splitting distributes over a separator. */
  lemma {:induction false} SplitConcat(a: string, c: char, b: string, isSep: char -> bool)
    requires isSep(c)
    ensures Split(a + [c] + b, isSep) == Split(a, isSep) + Split(b, isSep)
    decreases |a|
  {
    if |a| == 0 {
      SplitCons(c, b, isSep);
      assert a + [c] + b == [c] + b;
    } else {
      SplitConcatStep(a, c, b, isSep);
    }
  }

  lemma {:induction false} SplitConcatStep(a: string, c: char, b: string, isSep: char -> bool)
    requires isSep(c) && |a| > 0
    ensures Split(a + [c] + b, isSep) == Split(a, isSep) + Split(b, isSep)
    decreases |a|, 0
  {
    var x, t := a[0], a[1..];
    SplitConcat(t, c, b, isSep);
    var pa, pb := Split(t, isSep), Split(b, isSep);
    assert a + [c] + b == [x] + (t + [c] + b);
    assert a == [x] + t;
    SplitCons(x, t + [c] + b, isSep);
    SplitCons(x, t, isSep);
    ConsPieces(x, pa, pb, isSep(x));
  }

  /** The list identity behind `SplitConcatStep`. */
  lemma ConsPieces(x: char, pa: seq<string>, pb: seq<string>, sep: bool)
    requires |pa| >= 1
    ensures (if sep then [""] + (pa + pb) else [[x] + (pa + pb)[0]] + (pa + pb)[1..])
            == (if sep then [""] + pa else [[x] + pa[0]] + pa[1..]) + pb
  {
    if !sep {
      assert (pa + pb)[0] == pa[0];
      assert (pa + pb)[1..] == pa[1..] + pb;
    }
  }

  /** Round trip: splitting separator-free pieces joined by a separator gives them back. */
  lemma {:induction false} SplitJoin(parts: seq<string>, sep: char, isSep: char -> bool)
    requires isSep(sep) && |parts| >= 1
    requires forall k :: 0 <= k < |parts| ==> Free(parts[k], isSep)
    ensures Split(Join(parts, sep), isSep) == parts
    decreases |parts|
  {
    SplitFree(parts[0], isSep);
    if |parts| > 1 {
      SplitJoin(parts[1..], sep, isSep);
      SplitConcat(parts[0], sep, Join(parts[1..], sep), isSep);
      assert [parts[0]] + parts[1..] == parts;
    }
  }

  /** Round trip: when `sep` is the only separator in `s`, joining its pieces restores `s`. */
  lemma {:induction false} JoinSplit(s: string, sep: char, isSep: char -> bool)
    requires forall i :: 0 <= i < |s| && isSep(s[i]) ==> s[i] == sep
    ensures Join(Split(s, isSep), sep) == s
    decreases |s|
  {
    if |s| > 0 {
      var p := Split(s[1..], isSep);
      JoinSplit(s[1..], sep, isSep);
      if isSep(s[0]) {
        assert ([""] + p)[1..] == p;
      } else {
        var q := [[s[0]] + p[0]] + p[1..];
        if |p| > 1 {
          assert q[1..] == p[1..];
        }
      }
      assert [s[0]] + s[1..] == s;
    }
  }

  /** Joining separator-free pieces with a non-separator yields a separator-free string. */
  lemma {:induction false} JoinFree(parts: seq<string>, sep: char, isSep: char -> bool)
    requires !isSep(sep)
    requires forall k :: 0 <= k < |parts| ==> Free(parts[k], isSep)
    ensures Free(Join(parts, sep), isSep)
    decreases |parts|
  {
    if |parts| > 1 {
      JoinFree(parts[1..], sep, isSep);
      var j := parts[0] + [sep] + Join(parts[1..], sep);
      assert forall i :: |parts[0]| + 1 <= i < |j| ==> j[i] == Join(parts[1..], sep)[i - |parts[0]| - 1];
    }
  }

  // Swift sequence pipeline steps

  /** `filter`: the elements satisfying `keep`, in their original order. */
  function Filter<T>(xs: seq<T>, keep: T -> bool): (ys: seq<T>)
    ensures |ys| <= |xs|
    ensures forall k :: 0 <= k < |ys| ==> keep(ys[k])
    decreases |xs|
  {
    if |xs| == 0 then []
    else if keep(xs[0]) then [xs[0]] + Filter(xs[1..], keep)
    else Filter(xs[1..], keep)
  }

  /** An element is kept exactly when it occurs in the input and satisfies `keep`. */
  lemma {:induction false} FilterMembers<T>(xs: seq<T>, keep: T -> bool, x: T)
    ensures x in Filter(xs, keep) <==> x in xs && keep(x)
    decreases |xs|
  {
    if |xs| > 0 {
      FilterMembers(xs[1..], keep, x);
      assert xs == [xs[0]] + xs[1..];
    }
  }

  /** `FilterMembers` for every element at once. */
  lemma FilterMembersAll<T>(xs: seq<T>, keep: T -> bool)
    ensures forall x :: x in Filter(xs, keep) <==> x in xs && keep(x)
  {
    forall x {
      FilterMembers(xs, keep, x);
    }
  }

  lemma {:induction false} FilterConcat<T>(a: seq<T>, b: seq<T>, keep: T -> bool)
    ensures Filter(a + b, keep) == Filter(a, keep) + Filter(b, keep)
    decreases |a|
  {
    if |a| == 0 {
      assert a + b == b;
    } else {
      assert (a + b)[1..] == a[1..] + b;
      FilterConcat(a[1..], b, keep);
    }
  }

  lemma {:induction false} FilterAll<T>(xs: seq<T>, keep: T -> bool)
    requires forall k :: 0 <= k < |xs| ==> keep(xs[k])
    ensures Filter(xs, keep) == xs
    decreases |xs|
  {
    if |xs| > 0 {
      FilterAll(xs[1..], keep);
      assert [xs[0]] + xs[1..] == xs;
    }
  }

  lemma {:induction false} FilterNone<T>(xs: seq<T>, keep: T -> bool)
    requires forall k :: 0 <= k < |xs| ==> !keep(xs[k])
    ensures Filter(xs, keep) == []
    decreases |xs|
  {
    if |xs| > 0 {
      FilterNone(xs[1..], keep);
    }
  }

  /** `flatMap` with an optional-valued closure: failed conversions are dropped. */
  function FilterMap<A, B>(xs: seq<A>, f: A -> Option<B>): (ys: seq<B>)
    ensures |ys| <= |xs|
    decreases |xs|
  {
    if |xs| == 0 then []
    else
      var rest := FilterMap(xs[1..], f);
      match f(xs[0])
      case Some(y) => [y] + rest
      case None => rest
  }

  lemma {:induction false} FilterMapConcat<A, B>(a: seq<A>, b: seq<A>, f: A -> Option<B>)
    ensures FilterMap(a + b, f) == FilterMap(a, f) + FilterMap(b, f)
    decreases |a|
  {
    if |a| == 0 {
      assert a + b == b;
    } else {
      assert (a + b)[1..] == a[1..] + b;
      FilterMapConcat(a[1..], b, f);
    }
  }

  /** When every conversion succeeds, nothing is dropped. */
  lemma {:induction false} FilterMapAll<A, B>(xs: seq<A>, ys: seq<B>, f: A -> Option<B>)
    requires |xs| == |ys|
    requires forall k :: 0 <= k < |xs| ==> f(xs[k]) == Some(ys[k])
    ensures FilterMap(xs, f) == ys
    decreases |xs|
  {
    if |xs| > 0 {
      FilterMapAll(xs[1..], ys[1..], f);
      assert [ys[0]] + ys[1..] == ys;
    }
  }

  // Decimal numbers

  const Int64Min: int := -0x8000_0000_0000_0000
  const Int64Max: int := 0x7FFF_FFFF_FFFF_FFFF

  predicate IsDigit(c: char) { '0' <= c <= '9' }

  predicate AllDigits(s: string) {
    forall i :: 0 <= i < |s| ==> IsDigit(s[i])
  }

  function DigitValue(c: char): nat
    requires IsDigit(c)
  {
    c as int - '0' as int
  }

  function Digit(d: nat): (c: char)
    requires d < 10
    ensures IsDigit(c) && DigitValue(c) == d
  {
    ('0' as int + d) as char
  }

  function Pow10(k: nat): (p: nat)
    ensures p >= 1
  {
    if k == 0 then 1 else 10 * Pow10(k - 1)
  }

  /** Value of a string of decimal digits, most significant first. */
  function DigitsValue(s: string): nat
    requires AllDigits(s)
    decreases |s|
  {
    if |s| == 0 then 0
    else DigitsValue(s[..|s| - 1]) * 10 + DigitValue(s[|s| - 1])
  }

  /** Shortest decimal rendering of a natural number. */
  function ShowNat(n: nat): (s: string)
    ensures |s| >= 1 && AllDigits(s) && DigitsValue(s) == n
  {
    if n < 10 then [Digit(n)]
    else
      var s := ShowNat(n / 10) + [Digit(n % 10)];
      assert s[..|s| - 1] == ShowNat(n / 10);
      s
  }

  function ShowInt(n: int): string {
    if n < 0 then ['-'] + ShowNat(-n) else ShowNat(n)
  }

  /** An explicit leading `+` or `-`. */
  predicate HasSign(tok: string) {
    |tok| > 0 && (tok[0] == '+' || tok[0] == '-')
  }

  function Unsigned(tok: string): string {
    if HasSign(tok) then tok[1..] else tok
  }

  predicate Negative(tok: string) {
    HasSign(tok) && tok[0] == '-'
  }

  /** The value of a sign followed by digits. */
  function SignedValue(tok: string): int
    requires AllDigits(Unsigned(tok))
  {
    if Negative(tok) then -(DigitsValue(Unsigned(tok)) as int) else DigitsValue(Unsigned(tok))
  }

  /**
   * `Int(String)`: an optional sign and at least one decimal digit, nothing
   * else, and a value that fits in a signed 64-bit integer.
   */
  function ParseInt(tok: string): (r: Option<int>)
    ensures r.Some? <==> |Unsigned(tok)| >= 1 && AllDigits(Unsigned(tok))
                         && Int64Min <= SignedValue(tok) <= Int64Max
    ensures r.Some? ==> r.value == SignedValue(tok)
    ensures r.Some? ==> Int64Min <= r.value <= Int64Max
  {
    var body := Unsigned(tok);
    if |body| == 0 || !AllDigits(body) then None
    else
      var n: int := if Negative(tok) then -(DigitsValue(body) as int) else DigitsValue(body);
      if Int64Min <= n <= Int64Max then Some(n) else None
  }

  /**
   * Reading a token built from a sign (none, `+` or `-`) and digits, leading
   * zeros allowed: the signed value of the digits when it fits, else nothing.
   */
  lemma ParseIntReads(sign: string, digits: string)
    requires sign == "" || sign == "+" || sign == "-"
    requires |digits| >= 1 && AllDigits(digits)
    ensures AllDigits(Unsigned(sign + digits))
    ensures SignedValue(sign + digits) == if sign == "-" then -(DigitsValue(digits) as int) else DigitsValue(digits)
    ensures ParseInt(sign + digits)
            == if Int64Min <= SignedValue(sign + digits) <= Int64Max then Some(SignedValue(sign + digits)) else None
  {
    assert IsDigit(digits[0]);
    UnsignedOf(sign, digits);
  }

  /** Non-canonical renderings that `Int(String)` also reads. */
  lemma ParseIntExamples()
    ensures ParseInt("+07") == Some(7)
    ensures ParseInt("-0") == Some(0)
    ensures ParseInt("+") == None
  {
    DigitsValue2('0', '7');
    ParseIntReads("+", "07");
    assert "+" + "07" == "+07";
    ParseIntReads("-", "0");
    assert "-" + "0" == "-0";
    assert Unsigned("+") == "";
  }

  /** Every integer kept by `flatMap { Int($0) }` fits in 64 bits. */
  lemma {:induction false} ParsedIntsInRange(toks: seq<string>)
    ensures forall k :: 0 <= k < |FilterMap(toks, ParseInt)| ==>
      Int64Min <= FilterMap(toks, ParseInt)[k] <= Int64Max
    decreases |toks|
  {
    if |toks| > 0 {
      ParsedIntsInRange(toks[1..]);
    }
  }

  /** Position of the first `c` in `s`, or `|s|` when there is none. */
  function IndexOf(s: string, c: char): (k: nat)
    ensures k <= |s|
    ensures k < |s| ==> s[k] == c
    ensures forall i :: 0 <= i < k ==> s[i] != c
    decreases |s|
  {
    if |s| == 0 then 0
    else if s[0] == c then 0
    else 1 + IndexOf(s[1..], c)
  }

  /**
   * `Float(String)` restricted to plain decimals: an optional sign, digits,
   * an optional point followed by digits, and at least one digit overall.
   * The value is the exact decimal, with no rounding to single precision.
   */
  function ParseFloat(tok: string): (r: Option<real>)
  {
    match DecimalValue(Unsigned(tok))
    case None => None
    case Some(v) => Some(if Negative(tok) then -v else v)
  }

  /** The value of `whole`, or of `whole . frac`, without a sign. */
  function DecimalValue(body: string): Option<real> {
    var k := IndexOf(body, '.');
    DecimalOf(body[..k], if k < |body| then body[k + 1..] else "")
  }

  /** The value of the digits `whole` before the point and `frac` after it. */
  function DecimalOf(whole: string, frac: string): Option<real> {
    if |whole| + |frac| == 0 || !AllDigits(whole) || !AllDigits(frac) then None
    else Some(Decimal(whole, frac))
  }

  /** The number written `whole . frac`: the fraction's digits count in units of 10^-|frac|. */
  function Decimal(whole: string, frac: string): real
    requires AllDigits(whole) && AllDigits(frac)
  {
    DigitsValue(whole) as real + DigitsValue(frac) as real / Pow10(|frac|) as real
  }


  /** The first `c` of `w + [c] + t`, when `w` has none, is just after `w`. */
  lemma {:induction false} IndexOfAfter(w: string, c: char, t: string)
    requires forall i :: 0 <= i < |w| ==> w[i] != c
    ensures IndexOf(w + [c] + t, c) == |w|
    decreases |w|
  {
    if |w| > 0 {
      assert (w + [c] + t)[1..] == w[1..] + [c] + t;
      IndexOfAfter(w[1..], c, t);
    }
  }

  /** A sign in front of a body that does not start with one. */
  lemma UnsignedOf(sign: string, body: string)
    requires sign == "" || sign == "+" || sign == "-"
    requires |body| > 0 && body[0] != '+' && body[0] != '-'
    ensures Unsigned(sign + body) == body
    ensures Negative(sign + body) <==> sign == "-"
  {
    var tok := sign + body;
    if sign == "" {
      assert tok == body;
    } else {
      assert tok[0] == sign[0] && tok[1..] == body;
    }
  }

  /** A body `whole . frac` is cut at its first point, into `whole` and `frac`. */
  lemma DecimalPieces(whole: string, frac: string)
    requires AllDigits(whole)
    ensures DecimalValue(whole + "." + frac) == DecimalOf(whole, frac)
  {
    IndexOfAfter(whole, '.', frac);
    var body := whole + "." + frac;
    assert body[..|whole|] == whole;
    assert body[|whole| + 1..] == frac;
  }

  /**
   * A sign in front of a body that does not start with one: the token reads
   * exactly when the body does, and `-` negates the body's value.
   */
  lemma ParseFloatSign(sign: string, body: string)
    requires sign == "+" || sign == "-"
    requires |body| > 0 && body[0] != '+' && body[0] != '-'
    ensures ParseFloat(sign + body).Some? <==> ParseFloat(body).Some?
    ensures ParseFloat(body).Some? ==>
      ParseFloat(sign + body).value == if sign == "-" then -ParseFloat(body).value else ParseFloat(body).value
  {
    UnsignedOf(sign, body);
    UnsignedOf("", body);
    assert "" + body == body;
  }

  lemma DecimalHead(whole: string, frac: string)
    requires AllDigits(whole)
    ensures var body := whole + "." + frac; |body| > 0 && body[0] != '+' && body[0] != '-'
  {
    var body := whole + "." + frac;
    assert body[0] == (if |whole| > 0 then whole[0] else '.');
  }

  /**
   * Reading an unsigned decimal `whole . frac`, either part possibly empty
   * but not both: the whole part plus the fraction scaled by its length.
   * `ParseFloatSign` adds the sign.
   */
  lemma ParseDecimal(whole: string, frac: string)
    requires AllDigits(whole) && AllDigits(frac) && |whole| + |frac| >= 1
    ensures ParseFloat(whole + "." + frac) == Some(Decimal(whole, frac))
  {
    var body := whole + "." + frac;
    DecimalBody(whole, frac, Decimal(whole, frac));
    DecimalHead(whole, frac);
    UnsignedOf("", body);
    assert "" + body == body;
  }

  /** An unsigned decimal `whole . frac` has the value of its two digit runs. */
  lemma DecimalBody(whole: string, frac: string, v: real)
    requires AllDigits(whole) && AllDigits(frac) && |whole| + |frac| >= 1
    requires v == Decimal(whole, frac)
    ensures DecimalValue(whole + "." + frac) == Some(v)
  {
    DecimalPieces(whole, frac);
    DecimalOfDigits(whole, frac);
  }

  /** Digits on either side of the point, not both empty, make a decimal value. */
  lemma DecimalOfDigits(whole: string, frac: string)
    requires AllDigits(whole) && AllDigits(frac) && |whole| + |frac| >= 1
    ensures DecimalOf(whole, frac)
            == Some(Decimal(whole, frac))
  {
  }

  lemma DigitsValue1(a: char)
    requires IsDigit(a)
    ensures DigitsValue([a]) == DigitValue(a)
  {
    assert [a][..0] == [];
  }

  lemma DigitsValue2(a: char, b: char)
    requires IsDigit(a) && IsDigit(b)
    ensures DigitsValue([a, b]) == 10 * DigitValue(a) + DigitValue(b)
  {
    assert [a, b][..1] == [a];
    DigitsValue1(a);
  }

  /** Decimal coordinates such as those of a vertex record. */
  lemma ParseFloatHalf()
    ensures ParseFloat("0.5") == Some(0.5)
  {
  }

  lemma ParseFloatNoWhole()
    ensures ParseFloat(".5") == Some(0.5)
  {
  }

  lemma ParseFloatNoFraction()
    ensures ParseFloat("3.") == Some(3.0)
  {
  }

  /** Round trip: the rendering of any 64-bit integer parses back to it. */
  lemma ParseShowInt(n: int)
    requires Int64Min <= n <= Int64Max
    ensures ParseInt(ShowInt(n)) == Some(n)
  {
    var s := ShowInt(n);
    if n < 0 {
      assert Unsigned(s) == ShowNat(-n);
    } else {
      assert !HasSign(s) by { assert IsDigit(s[0]); }
    }
  }

  /** Every token that `Int(String)` accepts, `Float(String)` accepts with the same value. */
  lemma ParseFloatExtendsParseInt(tok: string)
    requires ParseInt(tok).Some?
    ensures ParseFloat(tok) == Some(ParseInt(tok).value as real)
  {
    var body := Unsigned(tok);
    var k := IndexOf(body, '.');
    assert k == |body|;
    assert body[..k] == body;
  }

  /** Any integer rendering is also a valid float token. */
  lemma ParseFloatShowInt(n: int)
    requires Int64Min <= n <= Int64Max
    ensures ParseFloat(ShowInt(n)) == Some(n as real)
  {
    ParseShowInt(n);
    ParseFloatExtendsParseInt(ShowInt(n));
  }

  /** A token starting with a letter (a record tag such as `v` or `f`) is no number. */
  lemma TagIsNotNumber(tok: string)
    requires |tok| > 0 && !IsDigit(tok[0])
    requires tok[0] != '+' && tok[0] != '-' && tok[0] != '.'
    ensures ParseInt(tok) == None && ParseFloat(tok) == None
  {
    assert Unsigned(tok) == tok;
    var k := IndexOf(tok, '.');
    if k > 0 {
      assert tok[..k][0] == tok[0];
    }
  }

  /** The empty piece produced by repeated separators is no number. */
  lemma EmptyIsNotNumber()
    ensures ParseInt("") == None && ParseFloat("") == None
  {
    assert Unsigned("") == "";
  }
}
