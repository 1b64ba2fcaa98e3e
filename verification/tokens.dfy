/** The `/\S+/g` match list the action uses both on the package text and on
    the downloaded mirror list: the maximal runs of non-white-space
    characters, in order. */
module Tokenizer {
  import opened Text

  /** JavaScript's `\s` class: the ASCII white space characters, the line
      terminators and the Unicode space separators, plus U+FEFF. */
  predicate IsSpace(c: char) {
    var n := c as int;
    (0x09 <= n <= 0x0D) || n == 0x20 || n == 0xA0 || n == 0x1680
    || (0x2000 <= n <= 0x200A) || n == 0x2028 || n == 0x2029
    || n == 0x202F || n == 0x205F || n == 0x3000 || n == 0xFEFF
  }

  /** A match of `\S+`: non-empty and free of white space. */
  predicate IsToken(t: string) {
    0 < |t| && forall i | 0 <= i < |t| :: !IsSpace(t[i])
  }

  /** Length of the longest white-space-free prefix of `s`. */
  function RunLength(s: string): (n: nat)
    ensures n <= |s|
    ensures forall i | 0 <= i < n :: !IsSpace(s[i])
    ensures n < |s| ==> IsSpace(s[n])
  {
    if |s| == 0 || IsSpace(s[0]) then 0 else 1 + RunLength(s[1..])
  }

  /** `[...s.matchAll(/\S+/g)].map(m => m[0])`. */
  function Tokens(s: string): (ts: seq<string>)
    ensures forall t | t in ts :: IsToken(t)
    decreases |s|
  {
    if |s| == 0 then []
    else if IsSpace(s[0]) then Tokens(s[1..])
    else
      var n := RunLength(s);
      [s[..n]] + Tokens(s[n..])
  }

  /** The characters of `s` that are not white space, in order. */
  function NonSpace(s: string): string {
    if |s| == 0 then ""
    else if IsSpace(s[0]) then NonSpace(s[1..])
    else [s[0]] + NonSpace(s[1..])
  }

  function Concat(ts: seq<string>): string {
    if |ts| == 0 then "" else ts[0] + Concat(ts[1..])
  }

  lemma {:induction false} NonSpaceAppend(a: string, b: string)
    ensures NonSpace(a + b) == NonSpace(a) + NonSpace(b)
    decreases |a|
  {
    if |a| > 0 {
      assert (a + b)[1..] == a[1..] + b;
      NonSpaceAppend(a[1..], b);
    } else {
      assert a + b == b;
    }
  }

  lemma {:induction false} NonSpaceOfToken(t: string)
    requires forall i | 0 <= i < |t| :: !IsSpace(t[i])
    ensures NonSpace(t) == t
    decreases |t|
  {
    if |t| > 0 {
      NonSpaceOfToken(t[1..]);
      assert t == [t[0]] + t[1..];
    }
  }

  /** Tokenising drops exactly the white space: the tokens laid end to end
      are the non-white-space characters of the text. */
  lemma {:induction false} TokensCoverText(s: string)
    ensures Concat(Tokens(s)) == NonSpace(s)
    decreases |s|
  {
    if |s| > 0 {
      if IsSpace(s[0]) {
        TokensCoverText(s[1..]);
      } else {
        var n := RunLength(s);
        TokensCoverText(s[n..]);
        assert s == s[..n] + s[n..];
        NonSpaceAppend(s[..n], s[n..]);
        NonSpaceOfToken(s[..n]);
      }
    }
  }

  lemma {:induction false} RunLengthAppend(x: string, c: char, y: string)
    requires IsSpace(c)
    ensures RunLength(x + [c] + y) == RunLength(x)
    decreases |x|
  {
    if |x| > 0 {
      assert (x + [c] + y)[1..] == x[1..] + [c] + y;
      RunLengthAppend(x[1..], c, y);
    }
  }

  /** A white-space character separates: the tokens on either side of it
      are tokenised independently. */
  lemma {:induction false} TokensSplitAt(x: string, c: char, y: string)
    requires IsSpace(c)
    ensures Tokens(x + [c] + y) == Tokens(x) + Tokens(y)
    decreases |x|
  {
    var s := x + [c] + y;
    if |x| == 0 {
      assert s[1..] == y;
      TokensSkip(s);
    } else if IsSpace(x[0]) {
      assert s[0] == x[0] && s[1..] == x[1..] + [c] + y;
      TokensSkip(s);
      TokensSkip(x);
      TokensSplitAt(x[1..], c, y);
    } else {
      var n := RunLength(x);
      RunLengthAppend(x, c, y);
      assert s[0] == x[0];
      assert s[..n] == x[..n];
      assert s[n..] == x[n..] + [c] + y;
      TokensHead(s);
      TokensHead(x);
      TokensSplitAt(x[n..], c, y);
      Text.Assoc([x[..n]], Tokens(x[n..]), Tokens(y));
    }
  }

  /** A leading white-space character contributes nothing. */
  lemma TokensSkip(s: string)
    requires |s| > 0 && IsSpace(s[0])
    ensures Tokens(s) == Tokens(s[1..])
  {
  }

  /** A leading token is the longest run of non-space characters. */
  lemma TokensHead(s: string)
    requires |s| > 0 && !IsSpace(s[0])
    ensures Tokens(s) == [s[..RunLength(s)]] + Tokens(s[RunLength(s)..])
  {
  }

  /** A text that starts with a non-space character has a first token,
      and that token starts with the same character. */
  lemma FirstToken(s: string)
    requires |s| > 0 && !IsSpace(s[0])
    ensures |Tokens(s)| > 0 && Tokens(s)[0][0] == s[0]
  {
    assert RunLength(s) > 0;
  }

  /** Two separating characters in a row separate like one. */
  lemma TokensSplitAtPair(x: string, c: char, d: char, y: string)
    requires IsSpace(c) && IsSpace(d)
    ensures Tokens(x + [c, d] + y) == Tokens(x) + Tokens(y)
  {
    assert [c, d] == [c] + [d];
    Text.Assoc(x, [c] + [d], y);
    Text.Assoc(x, [c], [d]);
    Text.Assoc(x + [c], [d], y);
    TokensSplitAt(x, c, [d] + y);
    TokensSkip([d] + y);
    assert ([d] + y)[1..] == y;
  }

  lemma {:induction false} TokensOfToken(t: string)
    requires IsToken(t)
    ensures Tokens(t) == [t]
  {
    assert RunLength(t) == |t|;
    assert t[..|t|] == t;
    assert t[|t|..] == "";
  }

  /** Two tokens, each followed by white space, are the two tokens. */
  lemma TokensOfPair(p: string, c: char, q: string, d: string)
    requires IsToken(p) && IsToken(q) && IsSpace(c)
    requires 0 < |d| && forall i | 0 <= i < |d| :: IsSpace(d[i])
    ensures Tokens(p + [c] + q + d) == [p, q]
  {
    TokenThenSpace(q, d);
    Text.Assoc(p + [c], q, d);
    TokensSplitAt(p, c, q + d);
    TokensOfToken(p);
    Text.Pair(p, q);
  }

  /** A token followed by white space is that one token. */
  lemma TokenThenSpace(q: string, d: string)
    requires IsToken(q)
    requires 0 < |d| && forall i | 0 <= i < |d| :: IsSpace(d[i])
    ensures Tokens(q + d) == [q]
  {
    var d0, rest := d[0], d[1..];
    assert d == [d0] + rest;
    Text.Assoc(q, [d0], rest);
    TokensSplitAt(q, d0, rest);
    TokensOfSpace(rest);
    TokensOfToken(q);
    assert [q] + [] == [q];
  }

  /** White space alone holds no token. */
  lemma {:induction false} TokensOfSpace(d: string)
    requires forall i | 0 <= i < |d| :: IsSpace(d[i])
    ensures Tokens(d) == []
    decreases |d|
  {
    if |d| > 0 {
      TokensSkip(d);
      TokensOfSpace(d[1..]);
    }
  }

  /** Tokenising the space-joined list of tokens gives the list back. */
  lemma {:induction false} TokensOfJoin(ts: seq<string>)
    requires forall t | t in ts :: IsToken(t)
    ensures Tokens(Join(ts, " ")) == ts
    decreases |ts|
  {
    if |ts| == 1 {
      TokensOfToken(ts[0]);
    } else if |ts| > 1 {
      assert Join(ts, " ") == ts[0] + [' '] + Join(ts[1..], " ");
      TokensSplitAt(ts[0], ' ', Join(ts[1..], " "));
      TokensOfToken(ts[0]);
      TokensOfJoin(ts[1..]);
      assert ts == [ts[0]] + ts[1..];
    }
  }
}
