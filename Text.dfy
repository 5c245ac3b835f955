/** Wide-character string utilities of fat.c: reversal and
    trailing-space trimming (in place on a buffer, and as functions),
    C-string views, prefix test and path tokenising. */
module Text {

  /** A `wchar_t` code unit. Every unit the core produces is read from a
      byte or from a 16-bit field, so the 32-bit width of `wchar_t` never
      comes into play and the units are modelled as plain integers. */
  type WChar = int

  const NUL: WChar := 0
  const SPACE: WChar := 0x20
  const DOT: WChar := 0x2E
  const SLASH: WChar := 0x2F

  /** `s` read backwards. */
  function Reversed(s: seq<WChar>): (r: seq<WChar>)
    ensures |r| == |s|
    ensures forall i :: 0 <= i < |s| ==> r[i] == s[|s| - 1 - i]
  {
    seq(|s|, i requires 0 <= i < |s| => s[|s| - 1 - i])
  }

  lemma ReversedInvolution(s: seq<WChar>)
    ensures Reversed(Reversed(s)) == s
  {
  }

  lemma ReversedHas(s: seq<WChar>, x: WChar)
    ensures x in Reversed(s) <==> x in s
  {
    if x in s {
      var i :| 0 <= i < |s| && s[i] == x;
      assert Reversed(s)[|s| - 1 - i] == x;
    }
    if x in Reversed(s) {
      var i :| 0 <= i < |s| && Reversed(s)[i] == x;
      assert s[|s| - 1 - i] == x;
    }
  }

  lemma ReversedConcat(a: seq<WChar>, b: seq<WChar>)
    ensures Reversed(a + b) == Reversed(b) + Reversed(a)
  {
    var l, r := Reversed(a + b), Reversed(b) + Reversed(a);
    forall i | 0 <= i < |a| + |b| ensures l[i] == r[i] {
      if i >= |b| {
        assert r[i] == Reversed(a)[i - |b|];
      }
    }
  }

  /** `s` without its trailing spaces. */
  function TrimEnd(s: seq<WChar>): (r: seq<WChar>)
    ensures |r| <= |s| && r == s[..|r|]
    ensures r == [] || r[|r| - 1] != SPACE
    ensures forall i :: |r| <= i < |s| ==> s[i] == SPACE
  {
    if s == [] || s[|s| - 1] != SPACE then s else TrimEnd(s[..|s| - 1])
  }

  /** A trailing space of `s[..n]` is trimmed. */
  lemma TrimStep(s: seq<WChar>, n: nat, n': nat)
    requires 0 < n <= |s| && s[n - 1] == SPACE && n' == n - 1
    ensures TrimEnd(s[..n]) == TrimEnd(s[..n'])
  {
    assert s[..n][..n'] == s[..n'];
  }

  lemma TrimEndIdempotent(s: seq<WChar>)
    ensures TrimEnd(TrimEnd(s)) == TrimEnd(s)
  {
  }

  /** Trimming depends only on what precedes the trailing spaces:
      appending spaces to a string does not change its trimmed form. */
  lemma {:induction false} TrimEndSpaces(s: seq<WChar>, n: nat)
    ensures TrimEnd(s + Spaces(n)) == TrimEnd(s)
  {
    if n > 0 {
      var t := s + Spaces(n);
      assert t != [] && t[|t| - 1] == SPACE;
      assert TrimEnd(t) == TrimEnd(t[..|t| - 1]);
      assert t[..|t| - 1] == s + Spaces(n - 1);
      TrimEndSpaces(s, n - 1);
    } else {
      assert s + Spaces(n) == s;
    }
  }

  /** `n` spaces. */
  function Spaces(n: nat): (r: seq<WChar>)
    ensures |r| == n && forall i :: 0 <= i < n ==> r[i] == SPACE
  {
    seq(n, _ => SPACE)
  }

  /** The C string held by a buffer: the units before the first NUL. */
  function UntilNul(s: seq<WChar>): (r: seq<WChar>)
    ensures |r| <= |s| && r == s[..|r|]
    ensures NUL !in r
    ensures |r| < |s| ==> s[|r|] == NUL
  {
    if s == [] || s[0] == NUL then [] else [s[0]] + UntilNul(s[1..])
  }

  lemma {:induction false} UntilNulNoNul(s: seq<WChar>)
    requires NUL !in s
    ensures UntilNul(s) == s
  {
    if s != [] {
      UntilNulNoNul(s[1..]);
    }
  }

  lemma {:induction false} UntilNulConcat(a: seq<WChar>, b: seq<WChar>)
    requires NUL !in a
    ensures UntilNul(a + b) == a + UntilNul(b)
  {
    if a != [] {
      assert (a + b)[0] == a[0] != NUL;
      assert UntilNul(a + b) == [a[0]] + UntilNul((a + b)[1..]);
      assert (a + b)[1..] == a[1..] + b;
      UntilNulConcat(a[1..], b);
      calc {
        UntilNul(a + b);
        [a[0]] + UntilNul(a[1..] + b);
        [a[0]] + (a[1..] + UntilNul(b));
        ([a[0]] + a[1..]) + UntilNul(b);
        { assert [a[0]] + a[1..] == a; }
        a + UntilNul(b);
      }
    } else {
      assert a + b == b;
    }
  }

  /** `reverseString`: reverses the first `length` units of the buffer in place. */
  method ReverseString(a: array<WChar>, length: int)
    requires length <= a.Length
    modifies a
    ensures length > 0 ==> a[..length] == Reversed(old(a[..length]))
    ensures forall k :: 0 <= k < a.Length && !(0 <= k < length) ==> a[k] == old(a[k])
  {
    var i, j := 0, length - 1;
    while i < j
      invariant 0 <= i && j == length - 1 - i
      invariant length <= 0 ==> i == 0
      invariant length > 0 ==> i <= j + 1
      invariant forall k :: 0 <= k < i ==> a[k] == old(a[length - 1 - k]) && a[length - 1 - k] == old(a[k])
      invariant forall k :: i <= k <= j ==> a[k] == old(a[k])
      invariant forall k :: 0 <= k < a.Length && !(0 <= k < length) ==> a[k] == old(a[k])
    {
      a[i], a[j] := a[j], a[i];
      i, j := i + 1, j - 1;
    }
  }

  /** `trimEnd`: cuts the trailing spaces of the first `length` units by
      writing a NUL just after the last non-space unit. */
  method TrimEndInPlace(a: array<WChar>, length: int)
    requires length <= a.Length
    modifies a
    ensures length <= 0 ==> a[..] == old(a[..])
    ensures length > 0 ==>
      var k := |TrimEnd(old(a[..length]))|;
      a[..] == if k < length then old(a[..])[k := NUL] else old(a[..])
  {
    if length <= 0 {
      return;
    }
    ghost var s := a[..length];
    var index := length - 1;
    ghost var n: nat := length;
    while index >= 0 && a[index] == SPACE
      invariant -1 <= index < length && n == index + 1 && a[..] == old(a[..])
      invariant TrimEnd(s) == TrimEnd(s[..n])
      decreases index
    {
      assert s[index] == a[..][index] == SPACE;
      ghost var n0 := n;
      index, n := index - 1, n - 1;
      TrimStep(s, n0, n);
    }
    assert TrimEnd(s) == s[..n] && s == old(a[..length]);
    if index + 1 < length {
      a[index + 1] := NUL;
    }
  }

  /** `startsWith`: `wcsncmp(string, prefix, wcslen(prefix)) == 0`, a unit-by-unit
      comparison of at most |prefix| units that stops at the string's end. */
  function StartsWith(s: seq<WChar>, prefix: seq<WChar>): (b: bool)
    requires NUL !in s && NUL !in prefix
    ensures b <==> |prefix| <= |s| && s[..|prefix|] == prefix
  {
    if prefix == [] then true
    else if s == [] || s[0] != prefix[0] then false
    else
      assert |prefix| <= |s| ==> s[1..][..|prefix| - 1] == s[..|prefix|][1..];
      StartsWith(s[1..], prefix[1..])
  }

  /** Length of the token at the head of `p`: the units before the first '/'. */
  function TokenLength(p: seq<WChar>): (n: nat)
    ensures n <= |p| && SLASH !in p[..n]
    ensures n < |p| ==> p[n] == SLASH
  {
    if p == [] || p[0] == SLASH then 0
    else
      var n := 1 + TokenLength(p[1..]);
      assert p[..n] == [p[0]] + p[1..][..n - 1];
      n
  }

  /** The tokens `wcstok` returns for `path` and the delimiter "/": the maximal
      non-empty runs of units without a '/', in order. */
  function Segments(p: seq<WChar>): (r: seq<seq<WChar>>)
    ensures forall k :: 0 <= k < |r| ==> r[k] != [] && SLASH !in r[k]
    decreases |p|
  {
    if p == [] then []
    else if p[0] == SLASH then Segments(p[1..])
    else
      var n := TokenLength(p);
      [p[..n]] + Segments(p[n..])
  }

  /** "/" + x1 + "/" + x2 + ... : a path built from its segments. */
  function JoinPath(xs: seq<seq<WChar>>): (p: seq<WChar>)
  {
    if xs == [] then [] else [SLASH] + xs[0] + JoinPath(xs[1..])
  }

  lemma {:induction false} TokenLengthOf(x: seq<WChar>, rest: seq<WChar>)
    requires SLASH !in x
    requires rest == [] || rest[0] == SLASH
    ensures TokenLength(x + rest) == |x|
  {
    if x != [] {
      assert (x + rest)[1..] == x[1..] + rest;
      TokenLengthOf(x[1..], rest);
    }
  }

  /** Splitting a path built from non-empty, slash-free segments gives those
      segments back. */
  lemma {:induction false} SegmentsJoinPath(xs: seq<seq<WChar>>)
    requires forall k :: 0 <= k < |xs| ==> xs[k] != [] && SLASH !in xs[k]
    ensures Segments(JoinPath(xs)) == xs
  {
    if xs != [] {
      var p := JoinPath(xs);
      var tail := xs[0] + JoinPath(xs[1..]);
      assert p == [SLASH] + tail && p[1..] == tail;
      var rest := JoinPath(xs[1..]);
      TokenLengthOf(xs[0], rest);
      assert tail[..|xs[0]|] == xs[0] && tail[|xs[0]|..] == rest;
      SegmentsJoinPath(xs[1..]);
    }
  }

  /** The token at the head of a string does not look past a '/' that
      follows it: appending text that starts with '/' leaves it as it is. */
  lemma {:induction false} TokenLengthBefore(a: seq<WChar>, s: seq<WChar>)
    requires s == [] || s[0] == SLASH
    ensures TokenLength(a + s) == TokenLength(a)
  {
    if a != [] && a[0] != SLASH {
      assert (a + s)[1..] == a[1..] + s;
      TokenLengthBefore(a[1..], s);
    }
  }

  /** A trailing '/' yields no token. */
  lemma {:induction false} SegmentsTrailingSlash(a: seq<WChar>)
    ensures Segments(a + [SLASH]) == Segments(a)
    decreases |a|
  {
    if a == [] {
      assert ([] + [SLASH])[1..] == [];
    } else if a[0] == SLASH {
      assert (a + [SLASH])[1..] == a[1..] + [SLASH];
      SegmentsTrailingSlash(a[1..]);
    } else {
      var n := TokenLength(a);
      TokenLengthBefore(a, [SLASH]);
      assert (a + [SLASH])[..n] == a[..n] && (a + [SLASH])[n..] == a[n..] + [SLASH];
      SegmentsTrailingSlash(a[n..]);
    }
  }

  /** A doubled '/' separates tokens as a single one does. */
  lemma {:induction false} SegmentsDoubledSlash(a: seq<WChar>, b: seq<WChar>)
    ensures Segments(a + [SLASH, SLASH] + b) == Segments(a + [SLASH] + b)
    decreases |a|
  {
    var two, one := [SLASH, SLASH] + b, [SLASH] + b;
    assert a + [SLASH, SLASH] + b == a + two && a + [SLASH] + b == a + one;
    if a == [] {
      assert [] + two == two && two[1..] == one && [] + one == one;
    } else if a[0] == SLASH {
      assert (a + two)[1..] == a[1..] + two && (a + one)[1..] == a[1..] + one;
      SegmentsDoubledSlash(a[1..], b);
      assert a[1..] + [SLASH, SLASH] + b == a[1..] + two && a[1..] + [SLASH] + b == a[1..] + one;
    } else {
      var n := TokenLength(a);
      TokenLengthBefore(a, two);
      TokenLengthBefore(a, one);
      assert (a + two)[..n] == a[..n] && (a + two)[n..] == a[n..] + two;
      assert (a + one)[..n] == a[..n] && (a + one)[n..] == a[n..] + one;
      SegmentsDoubledSlash(a[n..], b);
      assert a[n..] + [SLASH, SLASH] + b == a[n..] + two && a[n..] + [SLASH] + b == a[n..] + one;
    }
  }

  /** Empty segments are ignored: a leading, trailing or doubled '/' changes
      nothing. */
  lemma SegmentsIgnoreSlash(a: seq<WChar>, b: seq<WChar>)
    ensures Segments([SLASH] + a) == Segments(a)
    ensures Segments(a + [SLASH]) == Segments(a)
    ensures Segments(a + [SLASH, SLASH] + b) == Segments(a + [SLASH] + b)
  {
    assert ([SLASH] + a)[1..] == a;
    SegmentsTrailingSlash(a);
    SegmentsDoubledSlash(a, b);
  }
}
