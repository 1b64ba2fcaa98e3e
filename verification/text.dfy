/** JavaScript string primitives the action relies on: `Number.prototype.toString`
    on integers, template-literal interpolation of numbers, `padStart`,
    `Array.prototype.join` and `String.prototype.split` on a single character. */
module Text {
  /** Concatenation is associative; stated once so that proofs about long
      texts can cite it instead of rediscovering it element by element. */
  lemma Assoc<T>(a: seq<T>, b: seq<T>, c: seq<T>)
    ensures a + (b + c) == a + b + c
  {
  }

  lemma Pair<T>(a: T, b: T)
    ensures [a] + [b] == [a, b]
  {
  }

  /** The digit JavaScript writes for `d` in radices up to 16 (lower case). */
  function DigitChar(d: nat): (c: char)
    requires d < 16
  {
    if d < 10 then (48 + d) as char else (87 + d) as char
  }

  /** The value of a digit character, 16 for anything that is not a digit. */
  function DigitValue(c: char): (d: nat)
    ensures d <= 16
    ensures d < 16 ==> DigitChar(d) == c
  {
    if '0' <= c <= '9' then c as int - 48
    else if 'a' <= c <= 'f' then c as int - 87
    else 16
  }

  predicate IsDigit(c: char, radix: nat) {
    DigitValue(c) < radix
  }

  lemma DigitValueOfChar(d: nat)
    requires d < 16
    ensures DigitValue(DigitChar(d)) == d
  {
  }

  lemma MulNat(a: nat, b: nat)
    ensures a * b >= 0
  {
  }

  lemma DivMod(n: nat, radix: nat)
    requires 2 <= radix
    ensures n == (n / radix) * radix + n % radix
    ensures 0 <= n % radix < radix
    ensures n >= radix ==> 0 < n / radix < n
  {
  }

  /** `n.toString(radix)` for a non-negative integer `n`: the shortest digit
      string, most significant digit first. */
  function NumberToString(n: nat, radix: nat): (s: string)
    requires 2 <= radix <= 16
    ensures 0 < |s|
    ensures forall i | 0 <= i < |s| :: IsDigit(s[i], radix)
    decreases n
  {
    DivMod(n, radix);
    if n < radix then [DigitChar(n)]
    else NumberToString(n / radix, radix) + [DigitChar(n % radix)]
  }

  /** The value of a digit string read most significant digit first. */
  function ParseDigits(s: string, radix: nat): (n: nat)
    requires 2 <= radix <= 16
    requires forall i | 0 <= i < |s| :: IsDigit(s[i], radix)
    decreases |s|
  {
    if |s| == 0 then 0
    else
      var init := s[..|s| - 1];
      assert forall i | 0 <= i < |init| :: init[i] == s[i];
      var high: nat := ParseDigits(init, radix);
      MulNat(high, radix);
      high * radix + DigitValue(s[|s| - 1])
  }

  /** Reading back what `toString(radix)` wrote gives the number again. */
  lemma {:induction false} ParseNumberToString(n: nat, radix: nat)
    requires 2 <= radix <= 16
    ensures ParseDigits(NumberToString(n, radix), radix) == n
    decreases n
  {
    var s := NumberToString(n, radix);
    DivMod(n, radix);
    if n >= radix {
      var hi := NumberToString(n / radix, radix);
      assert s[..|s| - 1] == hi;
      ParseNumberToString(n / radix, radix);
      DigitValueOfChar(n % radix);
    } else {
      DigitValueOfChar(n);
    }
  }

  /** `${i}` for an integer `i`: decimal, with a leading `-` when negative. */
  function IntToString(i: int): (s: string)
    ensures 0 < |s|
    ensures s[0] == '-' <==> i < 0
  {
    if i < 0 then "-" + NumberToString(-i, 10) else NumberToString(i, 10)
  }

  /** Reads back a decimal string written by `IntToString`. */
  function ParseInt(s: string): (r: int)
  {
    if 0 < |s| && s[0] == '-' && forall k | 1 <= k < |s| :: IsDigit(s[k], 10) then
      0 - ParseDigits(s[1..], 10)
    else if forall k | 0 <= k < |s| :: IsDigit(s[k], 10) then
      ParseDigits(s, 10)
    else
      0
  }

  /** The decimal text of an exit status determines the status. */
  lemma ParseIntToString(i: int)
    ensures ParseInt(IntToString(i)) == i
  {
    var s := IntToString(i);
    if i < 0 {
      assert s[1..] == NumberToString(-i, 10);
      ParseNumberToString(-i, 10);
    } else {
      assert !IsDigit('-', 10);
      ParseNumberToString(i, 10);
    }
  }

  /** `s.padStart(width, fill)` with a one-character fill string. */
  function PadStart(s: string, width: nat, fill: char): (r: string)
    ensures |r| == if |s| < width then width else |s|
    ensures r[|r| - |s|..] == s
    ensures forall i | 0 <= i < |r| - |s| :: r[i] == fill
  {
    if |s| < width then seq(width - |s|, _ => fill) + s else s
  }

  /** `ts.join(sep)`: the parts with `sep` between consecutive ones. */
  function Join(ts: seq<string>, sep: string): (r: string)
    decreases |ts|
  {
    if |ts| == 0 then ""
    else if |ts| == 1 then ts[0]
    else ts[0] + sep + Join(ts[1..], sep)
  }

  /** Index of the first occurrence of `c` in `s`, or `|s|` when it does not occur. */
  function IndexOf(s: string, c: char): (i: nat)
    ensures i <= |s|
    ensures forall k | 0 <= k < i :: s[k] != c
    ensures i < |s| ==> s[i] == c
  {
    if |s| == 0 || s[0] == c then 0 else 1 + IndexOf(s[1..], c)
  }

  lemma {:induction false} IndexOfAfter(a: string, c: char, b: string)
    requires c !in a
    ensures IndexOf(a + [c] + b, c) == |a|
    decreases |a|
  {
    if |a| > 0 {
      assert (a + [c] + b)[1..] == a[1..] + [c] + b;
      IndexOfAfter(a[1..], c, b);
    }
  }

  /** `s.split(c)`: the maximal pieces between occurrences of `c`; the empty
      string splits into one empty piece. */
  function Split(s: string, c: char): (parts: seq<string>)
    ensures 0 < |parts|
    ensures forall p | p in parts :: c !in p
    decreases |s|
  {
    var i := IndexOf(s, c);
    if i == |s| then [s] else [s[..i]] + Split(s[i + 1..], c)
  }

  /** Splitting the join of a non-empty list of parts free of the separator
      character gives the parts back, so such a join loses nothing. */
  lemma {:induction false} SplitJoin(ts: seq<string>, c: char)
    requires 0 < |ts|
    requires forall t | t in ts :: c !in t
    ensures Split(Join(ts, [c]), c) == ts
    decreases |ts|
  {
    if |ts| > 1 {
      var rest := Join(ts[1..], [c]);
      assert Join(ts, [c]) == ts[0] + [c] + rest;
      SplitAfter(ts[0], c, rest);
      SplitJoin(ts[1..], c);
      assert ts == [ts[0]] + ts[1..];
    } else {
      assert c !in ts[0];
      assert IndexOf(ts[0], c) == |ts[0]|;
    }
  }

  /** A piece free of `c` followed by `c` splits off as the first part. */
  lemma SplitAfter(a: string, c: char, b: string)
    requires c !in a
    ensures Split(a + [c] + b, c) == [a] + Split(b, c)
  {
    var s := a + [c] + b;
    IndexOfAfter(a, c, b);
    assert s[..|a|] == a;
    assert s[|a| + 1..] == b;
  }

  /** Two lists of separator-free parts with the same join are the same list. */
  lemma JoinInjective(ts: seq<string>, us: seq<string>, c: char)
    requires 0 < |ts| && 0 < |us|
    requires forall t | t in ts :: c !in t
    requires forall u | u in us :: c !in u
    requires Join(ts, [c]) == Join(us, [c])
    ensures ts == us
  {
    SplitJoin(ts, c);
    SplitJoin(us, c);
  }
}
