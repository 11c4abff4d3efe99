/** String helpers shared by the filter compiler, the pagination compiler
    and the schema directives: JavaScript's `split`/`join`, decimal
    rendering and parsing of integers (`${n}` and `Number(s)`), ASCII
    lower-casing, and the byte-wise text order of a C-collated store. */
module Text {

  datatype Option<+T> = None | Some(value: T)

  /** The outcome of an operation that can fail: a value, or the reason. */
  datatype Result<+T, +E> = Ok(value: T) | Err(error: E)

  // ---------------------------------------------------------------------
  // split / join

  /** `s.split(c)` for a single-character separator: never empty, and an
      empty piece stands wherever two separators meet or at either end. */
  function Split(s: string, c: char): (r: seq<string>)
    ensures |r| >= 1
    decreases |s|
  {
    if |s| == 0 then [""]
    else
      var rest := Split(s[1..], c);
      if s[0] == c then [""] + rest
      else [[s[0]] + rest[0]] + rest[1..]
  }

  /** `parts.join(sep)`. */
  function Join(parts: seq<string>, sep: string): string
  {
    if |parts| == 0 then ""
    else if |parts| == 1 then parts[0]
    else parts[0] + sep + Join(parts[1..], sep)
  }

  /** Every occurrence of `c` in `s` replaced by `d`. */
  function Replace(s: string, c: char, d: char): (r: string)
    ensures |r| == |s|
    ensures forall i :: 0 <= i < |s| ==> r[i] == (if s[i] == c then d else s[i])
  {
    seq(|s|, i requires 0 <= i < |s| => if s[i] == c then d else s[i])
  }

  lemma JoinCons(p: string, ps: seq<string>, sep: string)
    requires |ps| >= 1
    ensures Join([p] + ps, sep) == p + sep + Join(ps, sep)
  {
    assert ([p] + ps)[1..] == ps;
  }

  /** Splitting on `c` and joining with `d` replaces every `c` by `d`. */
  lemma {:induction false} JoinSplitIsReplace(s: string, c: char, d: char)
    ensures Join(Split(s, c), [d]) == Replace(s, c, d)
    decreases |s|
  {
    if |s| > 0 {
      var rest := Split(s[1..], c);
      JoinSplitIsReplace(s[1..], c, d);
      ReplaceCons(s, c, d);
      if s[0] == c {
        JoinCons("", rest, [d]);
      } else {
        JoinExtendsHead(s[0], rest, [d]);
      }
    }
  }

  lemma ReplaceCons(s: string, c: char, d: char)
    requires |s| > 0
    ensures Replace(s, c, d) == [if s[0] == c then d else s[0]] + Replace(s[1..], c, d)
  {
  }

  /** Prefixing the first part prefixes the joined text. */
  lemma JoinExtendsHead(x: char, parts: seq<string>, sep: string)
    requires |parts| >= 1
    ensures Join([[x] + parts[0]] + parts[1..], sep) == [x] + Join(parts, sep)
  {
    var head := [x] + parts[0];
    if |parts| == 1 {
      assert [head] + parts[1..] == [head];
    } else {
      assert parts == [parts[0]] + parts[1..];
      JoinCons(parts[0], parts[1..], sep);
      JoinCons(head, parts[1..], sep);
    }
  }

  /** `s.split(c).join(c)` gives `s` back. */
  lemma JoinSplitRoundTrip(s: string, c: char)
    ensures Join(Split(s, c), [c]) == s
  {
    JoinSplitIsReplace(s, c, c);
  }

  /** A string without the separator splits into itself alone. */
  lemma {:induction false} SplitWithoutSeparator(s: string, c: char)
    requires c !in s
    ensures Split(s, c) == [s]
    decreases |s|
  {
    if |s| > 0 {
      assert c !in s[1..] by {
        forall i | 0 <= i < |s[1..]| ensures s[1..][i] != c { assert s[1..][i] == s[i + 1]; }
      }
      SplitWithoutSeparator(s[1..], c);
      assert s == [s[0]] + s[1..];
    }
  }

  // ---------------------------------------------------------------------
  // integers as decimal text

  predicate IsDigit(ch: char) { '0' <= ch <= '9' }

  predicate AllDigits(s: string) { forall i :: 0 <= i < |s| ==> IsDigit(s[i]) }

  function DigitChar(d: nat): (ch: char)
    requires d < 10
    ensures IsDigit(ch) && ch as int - '0' as int == d
  {
    (d + '0' as int) as char
  }

  /** `${n}` for a non-negative integer: shortest decimal, no sign. */
  function NatToString(n: nat): (r: string)
    ensures |r| >= 1 && AllDigits(r)
    ensures r[0] == '0' ==> n == 0
  {
    if n < 10 then [DigitChar(n)] else NatToString(n / 10) + [DigitChar(n % 10)]
  }

  /** `${i}` for an integer. */
  function IntToString(i: int): (r: string)
    ensures |r| >= 1
    ensures i < 0 <==> r[0] == '-'
  {
    if i < 0 then "-" + NatToString(-i) else NatToString(i)
  }

  /** The value of a string of decimal digits. */
  function DigitsValue(s: string): nat
    requires AllDigits(s)
  {
    if |s| == 0 then 0 else DigitsValue(s[..|s| - 1]) * 10 + (s[|s| - 1] as int - '0' as int)
  }

  lemma {:induction false} DigitsOfNat(n: nat)
    ensures DigitsValue(NatToString(n)) == n
  {
    if n >= 10 {
      DigitsOfNat(n / 10);
      var s := NatToString(n);
      assert s[..|s| - 1] == NatToString(n / 10);
    }
  }

  /** Characters `Number(s)` trims from both ends of its argument. */
  predicate IsSpace(ch: char) { ch == ' ' || ch == '\t' || ch == '\n' || ch == '\r' }

  function TrimStart(s: string): (r: string)
    ensures |r| <= |s|
  {
    if |s| > 0 && IsSpace(s[0]) then TrimStart(s[1..]) else s
  }

  function TrimEnd(s: string): (r: string)
    ensures |r| <= |s|
  {
    if |s| > 0 && IsSpace(s[|s| - 1]) then TrimEnd(s[..|s| - 1]) else s
  }

  /** A JavaScript number as far as this model needs one: an integer, or NaN. */
  datatype Number = Finite(n: int) | NaN

  /** `${x}` for a number. */
  function NumberText(x: Number): string
  {
    match x
    case Finite(n) => IntToString(n)
    case NaN => "NaN"
  }

  /** `Number(s)` restricted to integer notation: surrounding whitespace is
      trimmed, the empty string is 0, an optional sign precedes one or more
      decimal digits, and every other text is NaN. */
  function ParseNumber(s: string): Number
  {
    var t := TrimEnd(TrimStart(s));
    if |t| == 0 then Finite(0)
    else if AllDigits(t) then Finite(DigitsValue(t))
    else if |t| > 1 && t[0] == '+' && AllDigits(t[1..]) then Finite(DigitsValue(t[1..]))
    else if |t| > 1 && t[0] == '-' && AllDigits(t[1..]) then Finite(0 - DigitsValue(t[1..]))
    else NaN
  }

  /** Decimal text written by `${n}` reads back as `n` through `Number`. */
  lemma ParseIntToString(i: int)
    ensures ParseNumber(IntToString(i)) == Finite(i)
  {
    if i < 0 {
      ParseNegative(-i);
    } else {
      ParseDigits(NatToString(i));
      DigitsOfNat(i);
    }
  }

  lemma ParseNegative(n: nat)
    requires n > 0
    ensures ParseNumber("-" + NatToString(n)) == Finite(-(n as int))
  {
    var d := NatToString(n);
    var s := "-" + d;
    assert s[1..] == d;
    assert s[|s| - 1] == d[|d| - 1];
    NotTrimmed(s);
    assert !AllDigits(s) by { assert !IsDigit(s[0]); }
    DigitsOfNat(n);
  }

  /** Text that neither starts nor ends with a space is not trimmed. */
  lemma NotTrimmed(t: string)
    requires |t| > 0 && !IsSpace(t[0]) && !IsSpace(t[|t| - 1])
    ensures TrimEnd(TrimStart(t)) == t
  {
    assert TrimStart(t) == t;
  }

  /** Plain decimal digits read back as their value. */
  lemma ParseDigits(t: string)
    requires |t| > 0 && AllDigits(t)
    ensures ParseNumber(t) == Finite(DigitsValue(t))
  {
    NotTrimmed(t);
  }

  lemma ParseNumberText(x: Number)
    ensures ParseNumber(NumberText(x)) == x
  {
    match x
    case Finite(n) => ParseIntToString(n);
    case NaN =>
      assert NumberText(x) == "NaN";
      assert !AllDigits("NaN") by { assert !IsDigit("NaN"[0]); }
  }

  // ---------------------------------------------------------------------
  // case and order

  function LowerChar(ch: char): char
  {
    if 'A' <= ch <= 'Z' then (ch as int - 'A' as int + 'a' as int) as char else ch
  }

  /** `s.toLowerCase()` on ASCII letters. */
  function ToLower(s: string): (r: string)
    ensures |r| == |s|
    ensures forall i :: 0 <= i < |s| ==> r[i] == LowerChar(s[i])
  {
    seq(|s|, i requires 0 <= i < |s| => LowerChar(s[i]))
  }

  /** The byte-wise order in which a store with C collation compares text:
      `Less(a, b)` holds exactly when `a` sorts strictly before `b`. */
  predicate Less(a: string, b: string)
  {
    if |a| == 0 then |b| > 0
    else if |b| == 0 then false
    else if a[0] == b[0] then Less(a[1..], b[1..])
    else a[0] < b[0]
  }

  lemma {:induction false} LessIrreflexive(a: string)
    ensures !Less(a, a)
  {
    if |a| > 0 { LessIrreflexive(a[1..]); }
  }

  lemma {:induction false} LessTransitive(a: string, b: string, c: string)
    requires Less(a, b) && Less(b, c)
    ensures Less(a, c)
  {
    if |a| > 0 && |b| > 0 && |c| > 0 && a[0] == b[0] && b[0] == c[0] {
      LessTransitive(a[1..], b[1..], c[1..]);
    }
  }

  lemma {:induction false} LessTotal(a: string, b: string)
    ensures a == b || Less(a, b) || Less(b, a)
  {
    if |a| > 0 && |b| > 0 && a[0] == b[0] {
      LessTotal(a[1..], b[1..]);
      if a[1..] == b[1..] {
        assert a == [a[0]] + a[1..] && b == [b[0]] + b[1..];
      }
    }
  }
}
