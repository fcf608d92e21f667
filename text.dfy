/** String helpers used by the updater and the diff view: JavaScript's
    `String.prototype.split` with a one-character separator, its inverse
    `join`, and the canonical decimal spelling of array indices. */
module Text {

  /** Number of occurrences of `c` in `s`. */
  function Count(s: string, c: char): nat
  {
    if s == [] then 0 else (if s[0] == c then 1 else 0) + Count(s[1..], c)
  }

  /** `s.split(c)` for a one-character separator: every separator ends a segment,
      empty segments are kept, and the empty string splits into `[""]`. */
  function Split(s: string, c: char): (r: seq<string>)
    ensures |r| >= 1
  {
    if s == [] then [""]
    else if s[0] == c then [""] + Split(s[1..], c)
    else
      var t := Split(s[1..], c);
      [[s[0]] + t[0]] + t[1..]
  }

  /** `segs.join(c)`. */
  function Join(segs: seq<string>, c: char): string
  {
    if segs == [] then ""
    else if |segs| == 1 then segs[0]
    else segs[0] + [c] + Join(segs[1..], c)
  }

  /** Splitting and joining again gives the original string back. */
  lemma {:induction false} SplitJoin(s: string, c: char)
    ensures Join(Split(s, c), c) == s
  {
    if s == [] {
    } else if s[0] == c {
      SplitJoin(s[1..], c);
      var t := Split(s[1..], c);
      assert Split(s, c) == [""] + t;
      assert Join(Split(s, c), c) == "" + [c] + Join(t, c);
      assert s == [c] + s[1..];
    } else {
      SplitJoin(s[1..], c);
      var t := Split(s[1..], c);
      assert Split(s, c) == [[s[0]] + t[0]] + t[1..];
      if |t| == 1 {
        assert Join(Split(s, c), c) == [s[0]] + t[0];
        assert Join(t, c) == t[0];
      } else {
        assert ([[s[0]] + t[0]] + t[1..])[1..] == t[1..];
        assert Join(Split(s, c), c) == [s[0]] + t[0] + [c] + Join(t[1..], c);
        assert Join(t, c) == t[0] + [c] + Join(t[1..], c);
      }
      assert s == [s[0]] + s[1..];
    }
  }

  /** There is one segment more than there are separators. */
  lemma {:induction false} SplitCount(s: string, c: char)
    ensures |Split(s, c)| == Count(s, c) + 1
  {
    if s != [] {
      SplitCount(s[1..], c);
    }
  }

  /** No segment holds the separator. */
  lemma {:induction false} SplitSegments(s: string, c: char)
    ensures forall i :: 0 <= i < |Split(s, c)| ==> c !in Split(s, c)[i]
  {
    if s != [] && s[0] != c {
      SplitSegments(s[1..], c);
      var t := Split(s[1..], c);
      forall i | 0 <= i < |Split(s, c)| ensures c !in Split(s, c)[i] {
        if i == 0 {
          assert Split(s, c)[0] == [s[0]] + t[0];
        } else {
          assert Split(s, c)[i] == t[i];
        }
      }
    } else if s != [] {
      SplitSegments(s[1..], c);
    }
  }

  /** Joining separator-free segments and splitting again gives the segments back. */
  lemma {:induction false} JoinSplit(segs: seq<string>, c: char)
    requires |segs| >= 1
    requires forall i :: 0 <= i < |segs| ==> c !in segs[i]
    ensures Split(Join(segs, c), c) == segs
  {
    if |segs| == 1 {
      SplitPlain(segs[0], c);
    } else {
      JoinSplit(segs[1..], c);
      SplitPrefix(segs[0], Join(segs[1..], c), c);
      assert segs == [segs[0]] + segs[1..];
    }
  }

  /** A separator-free string is a single segment. */
  lemma {:induction false} SplitPlain(s: string, c: char)
    requires c !in s
    ensures Split(s, c) == [s]
  {
    if s != [] {
      SplitPlain(s[1..], c);
      assert s == [s[0]] + s[1..];
    }
  }

  /** A separator-free prefix followed by the separator is the first segment. */
  lemma {:induction false} SplitPrefix(a: string, b: string, c: char)
    requires c !in a
    ensures Split(a + [c] + b, c) == [a] + Split(b, c)
  {
    if a == [] {
      assert a + [c] + b == [c] + b;
    } else {
      SplitPrefix(a[1..], b, c);
      assert (a + [c] + b)[1..] == a[1..] + [c] + b;
      assert a == [a[0]] + a[1..];
    }
  }

  /** Decimal digit for `d < 10`. */
  function Digit(d: nat): char
    requires d < 10
  {
    "0123456789"[d]
  }

  /** Value of a decimal digit character, and -1 for any other character. */
  function DigitValue(ch: char): int
  {
    if '0' <= ch <= '9' then ch as int - '0' as int else -1
  }

  /** The canonical decimal spelling of `n`, as `String(n)` writes it. */
  function IndexKey(n: nat): (r: string)
    ensures |r| >= 1
    ensures r[0] == '0' ==> n == 0 && r == "0"
    ensures forall i :: 0 <= i < |r| ==> 0 <= DigitValue(r[i]) < 10
  {
    if n < 10 then [Digit(n)] else IndexKey(n / 10) + [Digit(n % 10)]
  }

  /** The value of a string of decimal digits. */
  function DigitsValue(s: string): nat
    requires forall i :: 0 <= i < |s| ==> 0 <= DigitValue(s[i]) < 10
  {
    if s == [] then 0 else 10 * DigitsValue(s[..|s| - 1]) + DigitValue(s[|s| - 1])
  }

  /** The array index a property key denotes: a non-empty string of decimal
      digits without a leading zero (other than "0" itself). Any other key is
      an ordinary property name. */
  function ParseIndex(k: string): (r: int)
    ensures r >= -1
  {
    if k == [] || (k[0] == '0' && |k| > 1) then -1
    else if forall i :: 0 <= i < |k| ==> 0 <= DigitValue(k[i]) < 10 then DigitsValue(k)
    else -1
  }

  lemma DigitValueOfDigit(d: nat)
    requires d < 10
    ensures DigitValue(Digit(d)) == d
  {
  }

  lemma {:induction false} DigitsOfIndexKey(n: nat)
    ensures DigitsValue(IndexKey(n)) == n
  {
    DigitValueOfDigit(n % 10);
    if n >= 10 {
      DigitsOfIndexKey(n / 10);
      var s := IndexKey(n / 10) + [Digit(n % 10)];
      assert s[..|s| - 1] == IndexKey(n / 10);
      assert DigitsValue(s) == 10 * DigitsValue(IndexKey(n / 10)) + DigitValue(Digit(n % 10));
    }
  }

  /** Reading back the key of index `n` gives `n`, so index keys are distinct. */
  lemma ParseIndexKey(n: nat)
    ensures ParseIndex(IndexKey(n)) == n
  {
    DigitsOfIndexKey(n);
  }

  lemma IndexKeyInjective(m: nat, n: nat)
    requires IndexKey(m) == IndexKey(n)
    ensures m == n
  {
    ParseIndexKey(m);
    ParseIndexKey(n);
  }

  lemma {:induction false} LeadingDigitPositive(s: string)
    requires s != [] && s[0] != '0'
    requires forall i :: 0 <= i < |s| ==> 0 <= DigitValue(s[i]) < 10
    ensures DigitsValue(s) > 0
  {
    if |s| > 1 {
      LeadingDigitPositive(s[..|s| - 1]);
    }
  }

  /** A canonical decimal string is the spelling of its own value. */
  lemma {:induction false} IndexKeyOfDigits(s: string)
    requires s != [] && (s[0] == '0' ==> |s| == 1)
    requires forall i :: 0 <= i < |s| ==> 0 <= DigitValue(s[i]) < 10
    ensures IndexKey(DigitsValue(s)) == s
  {
    var last := s[|s| - 1];
    var d := DigitValue(last);
    var init := s[..|s| - 1];
    assert DigitsValue(s) == 10 * DigitsValue(init) + d;
    DigitOfValue(last);
    if |s| == 1 {
      assert init == [];
      assert s == [last];
    } else {
      assert init[0] == s[0];
      LeadingDigitPositive(init);
      IndexKeyOfDigits(init);
      var a := DigitsValue(init);
      DivModTen(a, d);
      assert IndexKey(10 * a + d) == IndexKey(a) + [Digit(d)];
      assert s == init + [last];
    }
  }

  lemma DigitOfValue(ch: char)
    requires 0 <= DigitValue(ch) < 10
    ensures Digit(DigitValue(ch)) == ch
  {
  }

  lemma DivModTen(a: nat, d: nat)
    requires d < 10
    ensures (10 * a + d) / 10 == a && (10 * a + d) % 10 == d
  {
  }

  /** Every key that denotes an array index is the canonical spelling of that
      index, so two different keys never denote the same index. */
  lemma IndexKeyOfParse(k: string)
    requires ParseIndex(k) >= 0
    ensures k == IndexKey(ParseIndex(k))
  {
    IndexKeyOfDigits(k);
  }
}
