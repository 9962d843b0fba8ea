/** The JavaScript string and array built-ins that the tester's helpers rely
    on: `split` on one character, `join`, `includes`, `repeat`, and the
    decimal text of an integer number. */
module Text {

  // ---------------------------------------------------------------------
  // split and join
  // ---------------------------------------------------------------------

  /** `s.split(c)`: the pieces between occurrences of `c`, in order. There is
      always at least one piece (`"".split(".")` is `[""]`) and no piece holds
      the separator. */
  function Split(s: string, c: char): (r: seq<string>)
    ensures |r| >= 1
    ensures forall i :: 0 <= i < |r| ==> c !in r[i]
  {
    if s == [] then [[]]
    else
      var rest := Split(s[1..], c);
      if s[0] == c then [[]] + rest
      else [[s[0]] + rest[0]] + rest[1..]
  }

  /** `parts.join(sep)`; an empty array joins to the empty string, and a
      non-empty one begins with its first piece and ends with its last. */
  function Join(parts: seq<string>, sep: string): (r: string)
    ensures |parts| == 0 ==> r == []
    ensures |parts| >= 1 ==> HasPrefix(r, parts[0]) && HasSuffix(r, parts[|parts| - 1])
  {
    if |parts| == 0 then []
    else if |parts| == 1 then parts[0]
    else parts[0] + sep + Join(parts[1..], sep)
  }

  /** Every piece with `pad` put in front of it. */
  function Prefixed(pad: string, parts: seq<string>): seq<string>
  {
    seq(|parts|, i requires 0 <= i < |parts| => pad + parts[i])
  }

  /** `" ".repeat(n)`: exactly `n` characters, all spaces. */
  function Spaces(n: nat): (r: string)
    ensures |r| == n
    ensures forall i :: 0 <= i < n ==> r[i] == ' '
  {
    seq(n, _ => ' ')
  }

  predicate HasPrefix(s: string, p: string)
  {
    |p| <= |s| && s[..|p|] == p
  }

  predicate HasSuffix(s: string, p: string)
  {
    |p| <= |s| && s[|s| - |p|..] == p
  }

  /** Splitting text that starts with a separator-free part `x` glues `x`
      onto the first piece of the rest. */
  lemma {:induction false} SplitAfterFree(x: string, y: string, c: char)
    requires c !in x
    ensures Split(x + y, c) == [x + Split(y, c)[0]] + Split(y, c)[1..]
    decreases |x|
  {
    var sy := Split(y, c);
    if x == [] {
      assert x + y == y;
      assert x + sy[0] == sy[0];
      assert [sy[0]] + sy[1..] == sy;
    } else {
      assert (x + y)[0] == x[0];
      assert (x + y)[1..] == x[1..] + y;
      SplitAfterFree(x[1..], y, c);
      assert [x[0]] + (x[1..] + sy[0]) == x + sy[0];
    }
  }

  /** A separator-free part `x` followed by the separator splits off as the
      first piece. */
  lemma SplitAfterPiece(x: string, y: string, c: char)
    requires c !in x
    ensures Split(x + [c] + y, c) == [x] + Split(y, c)
  {
    var cy := [c] + y;
    assert cy[0] == c && cy[1..] == y;
    assert Split(cy, c) == [[]] + Split(y, c);
    assert x + [c] + y == x + cy;
    SplitAfterFree(x, cy, c);
    assert x + [] == x;
  }

  /** Joining with `x` glued onto the first piece is `x` followed by the join. */
  lemma JoinHead(x: string, parts: seq<string>, sep: string)
    requires |parts| >= 1
    ensures Join([x + parts[0]] + parts[1..], sep) == x + Join(parts, sep)
  {
    var q := [x + parts[0]] + parts[1..];
    assert q[0] == x + parts[0] && q[1..] == parts[1..];
    if |parts| >= 2 {
      assert Join(q, sep) == (x + parts[0]) + sep + Join(parts[1..], sep);
      assert x + Join(parts, sep) == x + (parts[0] + sep + Join(parts[1..], sep));
    }
  }

  /** Joining a concatenation puts one separator between the two joins. */
  lemma {:induction false} JoinAppend(a: seq<string>, b: seq<string>, sep: string)
    requires |a| >= 1 && |b| >= 1
    ensures Join(a + b, sep) == Join(a, sep) + sep + Join(b, sep)
    decreases |a|
  {
    if |a| == 1 {
      assert (a + b)[0] == a[0];
      assert (a + b)[1..] == b;
    } else {
      assert (a + b)[0] == a[0];
      assert (a + b)[1..] == a[1..] + b;
      JoinAppend(a[1..], b, sep);
    }
  }

  /** The join of at least two pieces, seen around its `k`-th piece. */
  lemma JoinAround(parts: seq<string>, k: nat, sep: string) returns (pre: string, post: string)
    requires k + 1 < |parts|
    ensures Join(parts, sep) == pre + parts[k] + sep + post
  {
    var head, tail := parts[..k + 1], parts[k + 1..];
    assert parts == head + tail;
    JoinAppend(head, tail, sep);
    post := Join(tail, sep);
    if k == 0 {
      assert head == [parts[0]];
      pre := "";
    } else {
      assert head == parts[..k] + [parts[k]];
      JoinAppend(parts[..k], [parts[k]], sep);
      pre := Join(parts[..k], sep) + sep;
    }
  }

  /** Round trip one way: joining the pieces of a split gives back the text. */
  lemma {:induction false} JoinSplit(s: string, c: char)
    ensures Join(Split(s, c), [c]) == s
    decreases |s|
  {
    if s != [] {
      var rest := Split(s[1..], c);
      JoinSplit(s[1..], c);
      if s[0] == c {
        assert ([[]] + rest)[1..] == rest;
      } else {
        JoinHead([s[0]], rest, [c]);
      }
      assert s == [s[0]] + s[1..];
    }
  }

  /** Round trip the other way: splitting a join of separator-free pieces
      gives back the pieces. */
  lemma {:induction false} SplitJoin(parts: seq<string>, c: char)
    requires |parts| >= 1
    requires forall i :: 0 <= i < |parts| ==> c !in parts[i]
    ensures Split(Join(parts, [c]), c) == parts
    decreases |parts|
  {
    if |parts| == 1 {
      SplitAfterFree(parts[0], [], c);
      assert parts[0] + [] == parts[0];
    } else {
      var rest := Join(parts[1..], [c]);
      assert Join(parts, [c]) == parts[0] + ([c] + rest);
      SplitAfterFree(parts[0], [c] + rest, c);
      assert ([c] + rest)[0] == c;
      assert ([c] + rest)[1..] == rest;
      SplitJoin(parts[1..], c);
      assert Split([c] + rest, c) == [[]] + parts[1..];
      assert ([[]] + parts[1..])[0] == [];
      assert ([[]] + parts[1..])[1..] == parts[1..];
      assert parts[0] + [] == parts[0];
      assert parts == [parts[0]] + parts[1..];
    }
  }

  /** Joining with a separator `c` followed by `pad` is joining with `c`
      alone after padding every piece but the first. */
  lemma {:induction false} JoinPadded(parts: seq<string>, c: char, pad: string)
    requires |parts| >= 1
    ensures Join(parts, [c] + pad) == Join([parts[0]] + Prefixed(pad, parts[1..]), [c])
    decreases |parts|
  {
    var q := [parts[0]] + Prefixed(pad, parts[1..]);
    assert q[0] == parts[0];
    if |parts| == 1 {
      assert q == [parts[0]];
    } else {
      var tail := parts[1..];
      JoinPadded(tail, c, pad);
      var tq := [tail[0]] + Prefixed(pad, tail[1..]);
      assert Prefixed(pad, tail) == [pad + tq[0]] + tq[1..];
      JoinHead(pad, tq, [c]);
      assert q[1..] == Prefixed(pad, tail);
      calc {
        Join(parts, [c] + pad);
        parts[0] + ([c] + pad) + Join(tail, [c] + pad);
        parts[0] + ([c] + pad) + Join(tq, [c]);
        parts[0] + [c] + (pad + Join(tq, [c]));
        parts[0] + [c] + Join(q[1..], [c]);
        Join(q, [c]);
      }
    }
  }

  /** Splitting a padded join on `c` recovers the pieces, every one but the
      first carrying the pad. */
  lemma SplitJoinPadded(parts: seq<string>, c: char, pad: string)
    requires |parts| >= 1
    requires c !in pad
    requires forall i :: 0 <= i < |parts| ==> c !in parts[i]
    ensures Split(Join(parts, [c] + pad), c) == [parts[0]] + Prefixed(pad, parts[1..])
  {
    JoinPadded(parts, c, pad);
    var q := [parts[0]] + Prefixed(pad, parts[1..]);
    forall i | 0 <= i < |q| ensures c !in q[i] {
      if i > 0 {
        assert q[i] == pad + parts[i];
      }
    }
    SplitJoin(q, c);
  }

  // ---------------------------------------------------------------------
  // includes
  // ---------------------------------------------------------------------

  /** `s.includes(t)`: never true of a needle longer than the text, always
      true of a prefix (the empty needle included). */
  function Contains(s: string, t: string): (found: bool)
    ensures found ==> |t| <= |s|
    ensures HasPrefix(s, t) ==> found
    decreases |s|
  {
    if |s| < |t| then false
    else if s[..|t|] == t then true
    else Contains(s[1..], t)
  }

  /** `t` occurs in `s` starting at index `i`. */
  ghost predicate OccursAt(s: string, t: string, i: int)
  {
    0 <= i && i + |t| <= |s| && s[i..i + |t|] == t
  }

  /** `Contains` holds exactly when `t` occurs somewhere in `s`. */
  lemma {:induction false} ContainsIff(s: string, t: string)
    ensures Contains(s, t) <==> exists i :: OccursAt(s, t, i)
    decreases |s|
  {
    if |s| < |t| {
    } else if s[..|t|] == t {
      assert OccursAt(s, t, 0);
    } else {
      ContainsIff(s[1..], t);
      if exists i :: OccursAt(s[1..], t, i) {
        var i :| OccursAt(s[1..], t, i);
        assert s[i + 1..i + 1 + |t|] == s[1..][i..i + |t|];
        assert OccursAt(s, t, i + 1);
      }
      if exists i :: OccursAt(s, t, i) {
        var i :| OccursAt(s, t, i);
        assert i != 0;
        assert s[1..][i - 1..i - 1 + |t|] == s[i..i + |t|];
        assert OccursAt(s[1..], t, i - 1);
      }
    }
  }

  /** A needle placed between any two texts is found. */
  lemma ContainsBetween(a: string, t: string, b: string)
    ensures Contains(a + t + b, t)
  {
    var s := a + t + b;
    assert s[|a|..|a| + |t|] == t;
    assert OccursAt(s, t, |a|);
    ContainsIff(s, t);
  }

  // ---------------------------------------------------------------------
  // Reading a prefix back
  // ---------------------------------------------------------------------

  /** The longest prefix of `s` that does not contain `c`. */
  function TakeUntil(s: string, c: char): (r: string)
    ensures c !in r && |r| <= |s|
    decreases |s|
  {
    if s == [] || s[0] == c then [] else [s[0]] + TakeUntil(s[1..], c)
  }

  /** Reading up to the first `c` stops exactly at the end of a `c`-free
      prefix that is followed by `c`. */
  lemma {:induction false} TakeUntilConcat(a: string, b: string, c: char)
    requires c !in a
    requires |b| >= 1 && b[0] == c
    ensures TakeUntil(a + b, c) == a
    decreases |a|
  {
    if a == [] {
      assert a + b == b;
    } else {
      assert (a + b)[0] == a[0];
      assert (a + b)[1..] == a[1..] + b;
      TakeUntilConcat(a[1..], b, c);
      assert a == [a[0]] + a[1..];
    }
  }

  /** The unconditional form of `TakeUntilConcat`, for use inside function
      bodies. */
  lemma TakeUntilAfter(a: string, b: string, c: char)
    requires |b| >= 1 && b[0] == c
    ensures c !in a ==> TakeUntil(a + b, c) == a
  {
    if c !in a {
      TakeUntilConcat(a, b, c);
    }
  }

  /** A concatenation ends with its second part. */
  lemma HasSuffixConcat(a: string, b: string)
    ensures HasSuffix(a + b, b)
  {
    assert (a + b)[|a + b| - |b|..] == b;
  }

  /** Putting text in front of a text and of its prefix keeps the prefix. */
  lemma HasPrefixExtend(a: string, b: string, p: string)
    requires HasPrefix(b, p)
    ensures HasPrefix(a + b, a + p)
  {
    assert (a + b)[..|a + p|] == a + b[..|p|];
  }

  /** Putting text in front keeps every suffix. */
  lemma HasSuffixExtend(a: string, b: string, p: string)
    requires HasSuffix(b, p)
    ensures HasSuffix(a + b, p)
  {
    assert (a + b)[|a + b| - |p|..] == b[|b| - |p|..];
  }

  // ---------------------------------------------------------------------
  // Decimal text of an integer (Number.prototype.toString for integers)
  // ---------------------------------------------------------------------

  predicate IsDigit(ch: char)
  {
    '0' as int <= ch as int <= '9' as int
  }

  function DigitChar(d: nat): (ch: char)
    requires d < 10
    ensures IsDigit(ch) && ch as int - '0' as int == d
  {
    ('0' as int + d) as char
  }

  function DigitValue(ch: char): (d: nat)
    requires IsDigit(ch)
    ensures d < 10
  {
    ch as int - '0' as int
  }

  /** A non-empty run of digits. */
  predicate IsDigits(s: string)
  {
    |s| >= 1 && forall k :: 0 <= k < |s| ==> IsDigit(s[k])
  }

  /** Digits in canonical form: no leading zero, except `"0"` itself. */
  predicate IsCanonicalDigits(s: string)
  {
    IsDigits(s) && (s[0] == '0' ==> |s| == 1)
  }

  /** The decimal digits of `n`, most significant first, without leading
      zeros. */
  function NatToDecimal(n: nat): (r: string)
    ensures IsCanonicalDigits(r)
    ensures r[0] == '0' ==> n == 0
    decreases n
  {
    if n < 10 then [DigitChar(n)] else NatToDecimal(n / 10) + [DigitChar(n % 10)]
  }

  /** The number a string of digits denotes. */
  function DecimalValue(s: string): nat
    requires forall i :: 0 <= i < |s| ==> IsDigit(s[i])
    decreases |s|
  {
    if s == [] then 0
    else 10 * DecimalValue(s[..|s| - 1]) + DigitValue(s[|s| - 1])
  }

  lemma {:induction false} NatToDecimalRoundTrip(n: nat)
    ensures DecimalValue(NatToDecimal(n)) == n
    decreases n
  {
    if n >= 10 {
      var r := NatToDecimal(n);
      assert r[..|r| - 1] == NatToDecimal(n / 10);
      NatToDecimalRoundTrip(n / 10);
    }
  }

  /** Digits that do not start with `0` denote a positive number. */
  lemma {:induction false} LeadingDigitPositive(s: string)
    requires IsDigits(s) && s[0] != '0'
    ensures DecimalValue(s) >= 1
    decreases |s|
  {
    if |s| > 1 {
      var init := s[..|s| - 1];
      assert init[0] == s[0];
      LeadingDigitPositive(init);
    }
  }

  /** Canonical digits are exactly what `NatToDecimal` prints for their
      value: the rendering is the only canonical text of a number. */
  lemma {:induction false} DecimalToNatRoundTrip(s: string)
    requires IsCanonicalDigits(s)
    ensures NatToDecimal(DecimalValue(s)) == s
    decreases |s|
  {
    var last := s[|s| - 1];
    var d := DigitValue(last);
    assert DigitChar(d) == last;
    if |s| == 1 {
      assert s == [last];
    } else {
      var init := s[..|s| - 1];
      assert init[0] == s[0] && s[0] != '0';
      LeadingDigitPositive(init);
      DecimalToNatRoundTrip(init);
      var n := DecimalValue(s);
      assert n == 10 * DecimalValue(init) + d;
      assert n / 10 == DecimalValue(init) && n % 10 == d;
      assert s == init + [last];
    }
  }

  /** `String(i)` for a safe integer `i`: a minus sign for negative values,
      then the digits of the magnitude without leading zeros. */
  function IntToDecimal(i: int): (r: string)
    ensures |r| >= 1
    ensures forall k :: 0 <= k < |r| ==> IsDigit(r[k]) || r[k] == '-'
    ensures r[0] == '-' <==> i < 0
    ensures r[0] == '0' <==> i == 0
  {
    if i < 0 then "-" + NatToDecimal(-i) else NatToDecimal(i)
  }

  /** Canonical integer text: canonical digits, or a minus sign followed by
      canonical digits other than `"0"` (there is no `-0`). */
  predicate IsIntegerText(s: string)
  {
    if |s| >= 1 && s[0] == '-' then
      IsCanonicalDigits(s[1..]) && s[1] != '0'
    else
      IsCanonicalDigits(s)
  }

  function IntegerValue(s: string): int
    requires IsIntegerText(s)
  {
    if s[0] == '-' then -(DecimalValue(s[1..]) as int) else DecimalValue(s)
  }

  /** The decimal text of an integer is canonical and reads back as that
      integer. */
  lemma IntToDecimalRoundTrip(i: int)
    ensures IsIntegerText(IntToDecimal(i))
    ensures IntegerValue(IntToDecimal(i)) == i
  {
    var r := IntToDecimal(i);
    if i < 0 {
      assert r[1..] == NatToDecimal(-i);
      NatToDecimalRoundTrip(-i);
    } else {
      NatToDecimalRoundTrip(i);
    }
  }

  /** Every canonical integer text is the decimal text of its value, so the
      rendering admits no other spelling (no leading zero, no `-0`). */
  lemma DecimalToIntRoundTrip(s: string)
    requires IsIntegerText(s)
    ensures IntToDecimal(IntegerValue(s)) == s
  {
    if s[0] == '-' {
      var digits := s[1..];
      LeadingDigitPositive(digits);
      DecimalToNatRoundTrip(digits);
      assert s == "-" + digits;
    } else {
      DecimalToNatRoundTrip(s);
    }
  }
}
