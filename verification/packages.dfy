/** `parsePackages`: the package list is the text with `#` comments removed,
    split on white space and sorted, duplicates kept.

    Comments are removed by replacing every match of `/#.*?(\n|$)/g` with its
    group. A comment is a `#` and the characters after it up to the first
    line feed, which stays as a separator, or up to the end of the text. Since
    `.` matches no line terminator, a `#` whose line ends in a carriage
    return, U+2028 or U+2029 before any line feed starts no comment, so with
    CR LF line endings the `#` and the comment words stay in the text. */
module Packages {
  import opened Tokenizer
  import opened StringOrder
  import Text

  /** The characters JavaScript's `.` does not match. */
  predicate IsLineTerminator(c: char) {
    c == '\n' || c == '\r' || c == '\U{2028}' || c == '\U{2029}'
  }

  predicate NoLineTerminator(s: string) {
    forall i | 0 <= i < |s| :: !IsLineTerminator(s[i])
  }

  /** Index of the first line terminator at or after `i`, or `|s|` if there is none. */
  function TerminatorFrom(s: string, i: nat): (j: nat)
    requires i <= |s|
    ensures i <= j <= |s|
    decreases |s| - i
  {
    if i == |s| || IsLineTerminator(s[i]) then i else TerminatorFrom(s, i + 1)
  }

  /** What `TerminatorFrom` finds: no terminator before it, and a terminator
      at it unless it is the end of the text. */
  lemma {:induction false} TerminatorFromFinds(s: string, i: nat)
    requires i <= |s|
    ensures forall k | i <= k < TerminatorFrom(s, i) :: !IsLineTerminator(s[k])
    ensures TerminatorFrom(s, i) < |s| ==> IsLineTerminator(s[TerminatorFrom(s, i)])
    decreases |s| - i
  {
    if i < |s| && !IsLineTerminator(s[i]) {
      TerminatorFromFinds(s, i + 1);
    }
  }

  /** The first line terminator at or after `i` is the one at `k`. */
  lemma TerminatorAt(s: string, i: nat, k: nat)
    requires i <= k <= |s|
    requires forall m | i <= m < k :: !IsLineTerminator(s[m])
    requires k < |s| ==> IsLineTerminator(s[k])
    ensures TerminatorFrom(s, i) == k
    decreases k - i
  {
    if i < k {
      TerminatorAt(s, i + 1, k);
    }
  }

  /** `s.replaceAll(/#.*?(\n|$)/g, '$1')`. */
  function StripComments(s: string): (r: string)
    ensures |r| <= |s|
    decreases |s|
  {
    if |s| == 0 then ""
    else if s[0] == '#' then
      var j := TerminatorFrom(s, 1);
      if j == |s| then ""
      else if s[j] == '\n' then "\n" + StripComments(s[j + 1..])
      else [s[0]] + StripComments(s[1..])
    else [s[0]] + StripComments(s[1..])
  }

  lemma StripOther(c: char, s: string)
    requires c != '#'
    ensures StripComments([c] + s) == [c] + StripComments(s)
  {
    assert ([c] + s)[1..] == s;
  }

  /** `t` opens with a `#` comment closed by a line feed. */
  predicate OpensWithCommentLine(t: string)
  {
    |t| > 0 && t[0] == '#' && TerminatorFrom(t, 1) < |t| && t[TerminatorFrom(t, 1)] == '\n'
  }

  /** A comment followed by a line feed is replaced by that line feed,
      whatever comes before or after it. */
  lemma StripCommentLine(a: string, c: string, b: string)
    requires NoLineTerminator(c)
    ensures StripComments(a + "#" + c + "\n" + b) == StripComments(a) + "\n" + StripComments(b)
  {
    var tail := "#" + c + "\n" + b;
    assert a + "#" + c + "\n" + b == a + tail;
    TerminatorAt(tail, 1, |c| + 1);
    assert tail[|c| + 2..] == b;
    StripBeforeCommentLine(a, tail);
  }

  /** Text in front of a closed comment line is stripped on its own. */
  lemma {:induction false} StripBeforeCommentLine(a: string, tail: string)
    requires OpensWithCommentLine(tail)
    ensures StripComments(a + tail) == StripComments(a) + StripComments(tail)
    decreases |a|
  {
    if |a| == 0 {
      assert a + tail == tail;
    } else if a[0] != '#' {
      StripBeforeCommentLine(a[1..], tail);
      OtherBeforeTail(a[0], a[1..], tail, StripComments(tail));
      assert a == [a[0]] + a[1..];
    } else {
      var j := TerminatorFrom(a, 1);
      if j < |a| {
        StripBeforeCommentLine(if a[j] == '\n' then a[j + 1..] else a[1..], tail);
        CommentBeforeTail(a, tail, j, StripComments(tail));
      } else {
        UnterminatedBeforeCommentLine(a, tail);
      }
    }
  }

  /** One step of `StripBeforeCommentLine` past a character other than `#`. */
  lemma OtherBeforeTail(x: char, y: string, tail: string, rest: string)
    requires x != '#'
    requires StripComments(y + tail) == StripComments(y) + rest
    ensures StripComments([x] + y + tail) == StripComments([x] + y) + rest
  {
    Text.Assoc([x], y, tail);
    StripOther(x, y + tail);
    StripOther(x, y);
    Text.Assoc([x], StripComments(y), rest);
  }

  /** One step of `StripBeforeCommentLine` past a `#` whose line ends inside `a`. */
  lemma CommentBeforeTail(a: string, tail: string, j: nat, rest: string)
    requires 0 < |a| && a[0] == '#' && j == TerminatorFrom(a, 1) && j < |a|
    requires a[j] == '\n' ==> StripComments(a[j + 1..] + tail) == StripComments(a[j + 1..]) + rest
    requires a[j] != '\n' ==> StripComments(a[1..] + tail) == StripComments(a[1..]) + rest
    ensures StripComments(a + tail) == StripComments(a) + rest
  {
    CommentInPrefix(a, tail, j);
    if a[j] == '\n' {
      var y := a[j + 1..];
      Text.Assoc("\n", StripComments(y), rest);
    } else {
      var y := a[1..];
      Text.Assoc("#", StripComments(y), rest);
    }
  }

  /** A `#` whose line ends inside `a` is treated the same in `a + tail`. */
  lemma CommentInPrefix(a: string, tail: string, j: nat)
    requires 0 < |a| && a[0] == '#' && j == TerminatorFrom(a, 1) && j < |a|
    ensures a[j] == '\n' ==> StripComments(a) == "\n" + StripComments(a[j + 1..])
    ensures a[j] == '\n' ==> StripComments(a + tail) == "\n" + StripComments(a[j + 1..] + tail)
    ensures a[j] != '\n' ==> StripComments(a) == "#" + StripComments(a[1..])
    ensures a[j] != '\n' ==> StripComments(a + tail) == "#" + StripComments(a[1..] + tail)
  {
    var s := a + tail;
    TerminatorFromFinds(a, 1);
    forall m | 1 <= m <= j ensures s[m] == a[m] {
    }
    TerminatorAt(s, 1, j);
    assert s[j + 1..] == a[j + 1..] + tail;
    assert s[1..] == a[1..] + tail;
  }

  /** A `#` whose line does not end inside `a` comments out the rest of
      `a` and, in `a + tail`, the first line of `tail` as well. */
  lemma UnterminatedBeforeCommentLine(a: string, tail: string)
    requires OpensWithCommentLine(tail)
    requires 0 < |a| && a[0] == '#' && TerminatorFrom(a, 1) == |a|
    ensures StripComments(a) == ""
    ensures StripComments(a + tail) == StripComments(tail)
  {
    var s := a + tail;
    var kt := TerminatorFrom(tail, 1);
    var k := |a| + kt;
    TerminatorAcross(a, tail);
    assert s[0] == '#' && s[k] == tail[kt];
    assert s[k + 1..] == tail[kt + 1..];
    SameAfterCommentLine(s, tail);
  }

  /** Two texts that open with closed comment lines and agree after them
      strip alike. */
  lemma SameAfterCommentLine(s: string, t: string)
    requires OpensWithCommentLine(s) && OpensWithCommentLine(t)
    requires s[TerminatorFrom(s, 1) + 1..] == t[TerminatorFrom(t, 1) + 1..]
    ensures StripComments(s) == StripComments(t)
  {
    CommentLineHead(s);
    CommentLineHead(t);
  }

  /** A closed comment line at the start becomes its line feed. */
  lemma CommentLineHead(s: string)
    requires OpensWithCommentLine(s)
    ensures StripComments(s) == "\n" + StripComments(s[TerminatorFrom(s, 1) + 1..])
  {
  }

  /** When `a`'s opening `#` line has no terminator, the first terminator
      of `a + tail` after position 0 is the first one in `tail` after its
      own position 0. */
  lemma TerminatorAcross(a: string, tail: string)
    requires 0 < |a| && TerminatorFrom(a, 1) == |a|
    requires 0 < |tail| && !IsLineTerminator(tail[0])
    ensures TerminatorFrom(a + tail, 1) == |a| + TerminatorFrom(tail, 1)
  {
    var s := a + tail;
    var kt := TerminatorFrom(tail, 1);
    TerminatorFromFinds(a, 1);
    TerminatorFromFinds(tail, 1);
    forall m | 1 <= m < |a| + kt ensures !IsLineTerminator(s[m]) {
      if m < |a| {
        assert s[m] == a[m];
      } else {
        assert s[m] == tail[m - |a|];
      }
    }
    if kt < |tail| {
      assert s[|a| + kt] == tail[kt];
    }
    TerminatorAt(s, 1, |a| + kt);
  }

  /** A comment that runs to the end of the text is dropped. */
  lemma StripCommentAtEnd(a: string, c: string)
    requires NoLineTerminator(c)
    ensures StripComments(a + "#" + c) == StripComments(a)
  {
    var tail := "#" + c;
    assert a + "#" + c == a + tail;
    forall m | 1 <= m < |tail| ensures !IsLineTerminator(tail[m]) {
      assert tail[m] == c[m - 1];
    }
    TerminatorAt(tail, 1, |tail|);
    StripBeforeOpenComment(a, tail);
  }

  /** `t` opens with a `#` comment that runs to its end. */
  predicate OpensWithOpenComment(t: string)
  {
    |t| > 0 && t[0] == '#' && TerminatorFrom(t, 1) == |t|
  }

  /** Text in front of a comment that runs to the end is stripped on its own. */
  lemma {:induction false} StripBeforeOpenComment(a: string, tail: string)
    requires OpensWithOpenComment(tail)
    ensures StripComments(a + tail) == StripComments(a)
    decreases |a|
  {
    if |a| == 0 {
      assert a + tail == tail;
    } else if a[0] != '#' {
      StripBeforeOpenComment(a[1..], tail);
      OtherBeforeTail(a[0], a[1..], tail, "");
      assert a == [a[0]] + a[1..];
    } else {
      var j := TerminatorFrom(a, 1);
      if j < |a| {
        StripBeforeOpenComment(if a[j] == '\n' then a[j + 1..] else a[1..], tail);
        CommentBeforeTail(a, tail, j, "");
      } else {
        UnterminatedBeforeOpenComment(a, tail);
      }
    }
    assert StripComments(a) + "" == StripComments(a);
  }

  /** A `#` whose line does not end inside `a` comments out all of `a + tail`
      when `tail`'s own comment also runs to the end. */
  lemma UnterminatedBeforeOpenComment(a: string, tail: string)
    requires OpensWithOpenComment(tail)
    requires 0 < |a| && a[0] == '#' && TerminatorFrom(a, 1) == |a|
    ensures StripComments(a) == ""
    ensures StripComments(a + tail) == ""
  {
    TerminatorAcross(a, tail);
    assert (a + tail)[0] == '#';
  }

  /** Text up to a line terminator other than a line feed is kept as it is,
      every `#` in it included: no comment can end there. */
  lemma {:induction false} StripUpToOtherTerminator(c: string, t: char, b: string)
    requires NoLineTerminator(c)
    requires IsLineTerminator(t) && t != '\n'
    ensures StripComments(c + [t] + b) == c + [t] + StripComments(b)
    decreases |c|
  {
    var s := c + [t] + b;
    if |c| == 0 {
      assert s == [t] + b;
      StripOther(t, b);
    } else {
      var x, y := c[0], c[1..];
      var rest := y + [t] + b;
      assert s[1..] == rest;
      if x == '#' {
        TerminatorAfter(c, t, b);
      }
      StripKeepsHead(s);
      StripUpToOtherTerminator(y, t, b);
      assert c == [x] + y;
      Text.Assoc([x], y + [t], StripComments(b));
      Text.Assoc([x], y, [t]);
    }
  }

  /** In `c + [t] + b`, the first line terminator after position 0 is `t`. */
  lemma TerminatorAfter(c: string, t: char, b: string)
    requires |c| > 0 && NoLineTerminator(c) && IsLineTerminator(t)
    ensures TerminatorFrom(c + [t] + b, 1) == |c|
    ensures (c + [t] + b)[|c|] == t
  {
    var s := c + [t] + b;
    forall m | 1 <= m < |c| ensures !IsLineTerminator(s[m]) {
      assert s[m] == c[m];
    }
    TerminatorAt(s, 1, |c|);
  }

  /** A first character that starts no comment is kept as it is. */
  lemma StripKeepsHead(s: string)
    requires |s| > 0
    requires s[0] == '#' ==> TerminatorFrom(s, 1) < |s| && s[TerminatorFrom(s, 1)] != '\n'
    ensures StripComments(s) == [s[0]] + StripComments(s[1..])
  {
  }

  /** Text without a `#` is left unchanged. */
  lemma {:induction false} StripNoHash(s: string)
    requires '#' !in s
    ensures StripComments(s) == s
    decreases |s|
  {
    if |s| > 0 {
      StripNoHash(s[1..]);
      assert s == [s[0]] + s[1..];
    }
  }

  /** Removing comments a second time changes nothing: what survives holds
      no comment the pattern can match. */
  lemma {:induction false} StripIdempotent(s: string)
    ensures StripComments(StripComments(s)) == StripComments(s)
    decreases |s|
  {
    if |s| > 0 {
      if s[0] == '#' {
        var j := TerminatorFrom(s, 1);
        if j < |s| {
          var b := s[j + 1..];
          if s[j] == '\n' {
            assert StripComments(s) == "\n" + StripComments(b);
            StripIdempotent(b);
            StripOther('\n', StripComments(b));
          } else {
            StripBlockedIdempotent(s, j);
          }
        }
      } else {
        assert StripComments(s) == [s[0]] + StripComments(s[1..]);
        StripIdempotent(s[1..]);
        StripOther(s[0], StripComments(s[1..]));
      }
    }
  }

  /** The case of `StripIdempotent` where the first `#` starts no comment. */
  lemma {:induction false} StripBlockedIdempotent(s: string, j: nat)
    requires 0 < j < |s| && s[0] == '#'
    requires j == TerminatorFrom(s, 1) && s[j] != '\n'
    ensures StripComments(StripComments(s)) == StripComments(s)
    decreases |s|, 0
  {
    var c := s[1..j];
    var t := s[j];
    var b := s[j + 1..];
    var sb := StripComments(b);
    TerminatorFromFinds(s, 1);
    assert s[1..] == c + [t] + b;
    assert NoLineTerminator(c);
    StripKeepsHead(s);
    StripUpToOtherTerminator(c, t, b);
    var h := "#" + c;
    Text.Assoc("#", c + [t], sb);
    Text.Assoc("#", c, [t]);
    assert StripComments(s) == h + [t] + sb;
    assert NoLineTerminator(h) by {
      forall m | 0 <= m < |h| ensures !IsLineTerminator(h[m]) {
        if m > 0 {
          assert h[m] == c[m - 1];
        }
      }
    }
    StripUpToOtherTerminator(h, t, sb);
    StripIdempotent(b);
  }

  /** `parsePackages(packagesString)`. */
  function ParsePackages(text: string): (packages: seq<string>)
    ensures Sorted(packages)
    ensures multiset(packages) == multiset(Tokens(StripComments(text)))
    ensures forall p | p in packages :: IsToken(p)
  {
    var packages := Sort(Tokens(StripComments(text)));
    assert forall p | p in packages :: p in multiset(Tokens(StripComments(text)));
    packages
  }

  /** Texts naming the same packages, each as often, parse to the same
      list, however their lines and comments are arranged. */
  lemma ParseOrderIndependent(a: string, b: string)
    requires multiset(Tokens(StripComments(a))) == multiset(Tokens(StripComments(b)))
    ensures ParsePackages(a) == ParsePackages(b)
  {
    SortedUnique(ParsePackages(a), ParsePackages(b));
  }

  /** Parsing a package line with a trailing comment is parsing the line
      alone followed by the rest: the comment contributes no package and the
      line feed that ends it still separates the packages around it. */
  lemma ParseDropsComment(a: string, c: string, b: string)
    requires NoLineTerminator(c)
    ensures multiset(ParsePackages(a + "#" + c + "\n" + b))
         == multiset(Tokens(StripComments(a))) + multiset(Tokens(StripComments(b)))
  {
    StripCommentLine(a, c, b);
    TokensSplitAt(StripComments(a), '\n', StripComments(b));
  }

  /** A comment ended by CR LF is kept: the text keeps its `#`, its carriage
      return and its line feed. */
  lemma StripKeepsCrLfComment(c: string, b: string)
    requires NoLineTerminator(c)
    ensures StripComments("#" + c + "\r\n" + b) == "#" + c + "\r\n" + StripComments(b)
  {
    var h := "#" + c;
    var t := "\n" + b;
    assert "#" + c + "\r\n" + b == h + ['\r'] + t;
    assert NoLineTerminator(h);
    StripUpToOtherTerminator(h, '\r', t);
    StripOther('\n', b);
  }

  /** The words of a comment ended by CR LF are parsed as packages, the
      first of them starting with `#`. */
  lemma ParseKeepsCrLfComment(c: string, b: string)
    requires NoLineTerminator(c)
    ensures multiset(ParsePackages("#" + c + "\r\n" + b))
         == multiset(Tokens("#" + c)) + multiset(Tokens(StripComments(b)))
    ensures exists p | p in ParsePackages("#" + c + "\r\n" + b) :: p[0] == '#'
  {
    var s := "#" + c + "\r\n" + b;
    var h := "#" + c;
    var u := StripComments(b);
    StripKeepsCrLfComment(c, b);
    assert h + "\r\n" + u == h + ['\r', '\n'] + u;
    TokensSplitAtPair(h, '\r', '\n', u);
    FirstToken(h);
    var p := Tokens(h)[0];
    assert p in multiset(ParsePackages(s));
  }

  /** Two packages listed in either order, one of them with a trailing
      comment, parse to the same list. */
  lemma ReorderedWithCommentParsesAlike(p: string, q: string, c: string)
    requires IsToken(p) && IsToken(q) && '#' !in p && '#' !in q
    requires NoLineTerminator(c)
    ensures ParsePackages(q + "\n" + p + " #" + c + "\n") == ParsePackages(p + "\n" + q + "\n")
  {
    var commented := q + "\n" + p + " #" + c + "\n";
    var plain := p + "\n" + q + "\n";
    TokensOfCommentedPair(q, p, c);
    TokensOfPlainPair(p, q);
    assert multiset([q, p]) == multiset([p, q]);
    ParseOrderIndependent(commented, plain);
  }

  lemma TokensOfCommentedPair(q: string, p: string, c: string)
    requires IsToken(p) && IsToken(q) && '#' !in p && '#' !in q
    requires NoLineTerminator(c)
    ensures Tokens(StripComments(q + "\n" + p + " #" + c + "\n")) == [q, p]
  {
    var x := q + ['\n'] + p;
    assert q + "\n" + p == x;
    StripTrailingComment(x, c);
    assert '#' !in x + " ";
    StripNoHash(x + " ");
    assert " \n" == [' '] + "\n" && x + " " == x + [' '];
    Text.Assoc(x, [' '], "\n");
    TokensOfPair(q, '\n', p, " \n");
  }

  lemma TokensOfPlainPair(p: string, q: string)
    requires IsToken(p) && IsToken(q) && '#' !in p && '#' !in q
    ensures Tokens(StripComments(p + "\n" + q + "\n")) == [p, q]
  {
    var plain := p + "\n" + q + "\n";
    assert plain == p + ['\n'] + q + "\n";
    assert '#' !in plain;
    StripNoHash(plain);
    TokensOfPair(p, '\n', q, "\n");
  }

  /** A comment after a space at the end of the last line leaves the space
      and the line feed. */
  lemma StripTrailingComment(x: string, c: string)
    requires NoLineTerminator(c)
    ensures StripComments(x + " #" + c + "\n") == StripComments(x + " ") + "\n"
  {
    var line := x + " ";
    assert " #" == [' '] + "#";
    Text.Assoc(x, [' '], "#");
    assert x + " #" + c + "\n" == line + "#" + c + "\n" + "";
    StripCommentLine(line, c, "");
    assert StripComments("") == "";
    assert StripComments(line) + "\n" + "" == StripComments(line) + "\n";
  }
}
