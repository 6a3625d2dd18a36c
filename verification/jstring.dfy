/** The parts of `java.lang.String` the protocol code relies on: `indexOf`,
    `split` with and without a limit, `replace`, and the joining that
    `StringBuilder` loops perform. Strings are `seq<char>`. */
module JString {

  /** Position of the first `c` in `s`, or `|s|` when there is none
      (`String.indexOf`, with "not found" as the length instead of -1). */
  function IndexOf(s: string, c: char): (i: nat)
    ensures i <= |s|
    ensures i < |s| ==> s[i] == c
    ensures forall j :: 0 <= j < i ==> s[j] != c
    ensures i == |s| <==> c !in s
  {
    if |s| == 0 || s[0] == c then 0 else 1 + IndexOf(s[1..], c)
  }

  /** `s.startsWith(p)`. */
  predicate StartsWith(s: string, p: string)
  {
    |p| <= |s| && s[..|p|] == p
  }

  lemma StartsWithConcat(p: string, rest: string)
    ensures StartsWith(p + rest, p) && (p + rest)[|p|..] == rest
  {
    assert (p + rest)[..|p|] == p;
  }

  lemma StartsWithAppend(s: string, t: string, p: string)
    requires StartsWith(s, p)
    ensures StartsWith(s + t, p)
  {
    assert (s + t)[..|p|] == s[..|p|];
  }

  /** Two prefixes that disagree somewhere cannot both begin the same text. */
  lemma StartsWithExclusive(s: string, p: string, q: string, k: nat)
    requires StartsWith(s, p) && k < |p| && k < |q| && p[k] != q[k]
    ensures !StartsWith(s, q)
  {
    assert s[k] == s[..|p|][k];
    if |q| <= |s| {
      assert s[..|q|][k] == s[k];
    }
  }

  /** Every field of `s` between occurrences of `c`, empty ones included:
      `String.split` with a negative limit. */
  function Fields(s: string, c: char): (r: seq<string>)
    ensures |r| >= 1
    ensures forall k :: 0 <= k < |r| ==> c !in r[k]
    decreases |s|
  {
    var i := IndexOf(s, c);
    if i == |s| then [s] else [s[..i]] + Fields(s[i + 1..], c)
  }

  /** `xs` glued together with `c` between neighbours. */
  function Join(xs: seq<string>, c: char): string
  {
    if |xs| == 0 then ""
    else if |xs| == 1 then xs[0]
    else xs[0] + [c] + Join(xs[1..], c)
  }

  /** The first two fields of a join of three or more, spelled out. */
  lemma JoinLeading(xs: seq<string>, c: char)
    requires |xs| >= 3
    ensures Join(xs, c) == xs[0] + [c] + xs[1] + [c] + Join(xs[2..], c)
  {
    assert xs[1..][1..] == xs[2..];
    assert Join(xs[1..], c) == xs[1] + [c] + Join(xs[2..], c);
  }

  /** A field that itself holds the separator joins like the two fields around it. */
  lemma {:induction false} JoinSplitsField(p: seq<string>, a: string, b: string, q: seq<string>, c: char)
    ensures Join(p + [a + [c] + b] + q, c) == Join(p + [a, b] + q, c)
    decreases |p|
  {
    if |p| == 0 {
      assert p + [a + [c] + b] + q == [a + [c] + b] + q;
      assert p + [a, b] + q == [a, b] + q;
      assert ([a, b] + q)[1..] == [b] + q;
      if |q| > 0 {
        assert ([a + [c] + b] + q)[1..] == q;
        assert ([b] + q)[1..] == q;
      }
    } else {
      JoinSplitsField(p[1..], a, b, q, c);
      assert (p + [a + [c] + b] + q)[1..] == p[1..] + [a + [c] + b] + q;
      assert (p + [a, b] + q)[1..] == p[1..] + [a, b] + q;
    }
  }

  /** The array `String.split` with limit 0 keeps: trailing empty strings removed. */
  function DropTrailingEmpty(xs: seq<string>): (r: seq<string>)
    ensures |r| <= |xs| && r == xs[..|r|]
    ensures |r| > 0 ==> r[|r| - 1] != ""
    ensures forall k :: |r| <= k < |xs| ==> xs[k] == ""
  {
    if |xs| == 0 then []
    else if xs[|xs| - 1] == "" then DropTrailingEmpty(xs[..|xs| - 1])
    else xs
  }

  /** `s.split(c)` for a one-character pattern: with no occurrence the whole
      string (even the empty one); otherwise the fields without trailing
      empty ones. */
  function Split(s: string, c: char): (r: seq<string>)
  {
    if c !in s then [s] else DropTrailingEmpty(Fields(s, c))
  }

  /** `s.split(c, n)` for `n > 0`: at most `n` fields, the last one holding
      everything after the `n - 1`-th separator; empty fields are kept. */
  function SplitLimit(s: string, c: char, n: nat): (r: seq<string>)
    requires n >= 1
    ensures 1 <= |r| <= n
    ensures forall k :: 0 <= k < |r| - 1 ==> c !in r[k]
    ensures Join(r, c) == s
    decreases n
  {
    var i := IndexOf(s, c);
    if n == 1 || i == |s| then [s]
    else
      var rest := SplitLimit(s[i + 1..], c, n - 1);
      assert s == s[..i] + [c] + s[i + 1..];
      [s[..i]] + rest
  }

  /** `s.replace(t, r)`: every non-overlapping occurrence of `t`, scanning
      left to right, replaced by `r`. */
  function Replace(s: string, t: string, r: string): string
    requires |t| > 0
    decreases |s|
  {
    if |s| < |t| then s
    else if s[..|t|] == t then r + Replace(s[|t|..], t, r)
    else [s[0]] + Replace(s[1..], t, r)
  }

  // ---------------------------------------------------------------------
  // Split and join are inverse on fields free of the separator
  // ---------------------------------------------------------------------

  lemma IndexOfAfter(a: string, c: char, b: string)
    requires c !in a
    ensures IndexOf(a + [c] + b, c) == |a|
  {
    var s := a + [c] + b;
    assert s[|a|] == c;
    assert forall j :: 0 <= j < |a| ==> s[j] == a[j];
  }

  /** Splitting `a:tail` peels off `a` as the first field. */
  lemma FieldsCons(a: string, c: char, tail: string)
    requires c !in a
    ensures Fields(a + [c] + tail, c) == [a] + Fields(tail, c)
  {
    var s := a + [c] + tail;
    IndexOfAfter(a, c, tail);
    assert s[..|a|] == a;
    assert s[|a| + 1..] == tail;
  }

  lemma {:induction false} FieldsJoin(xs: seq<string>, c: char)
    requires |xs| >= 1
    requires forall k :: 0 <= k < |xs| ==> c !in xs[k]
    ensures Fields(Join(xs, c), c) == xs
    decreases |xs|
  {
    if |xs| == 1 {
      assert Join(xs, c) == xs[0];
    } else {
      var tail := Join(xs[1..], c);
      assert Join(xs, c) == xs[0] + [c] + tail;
      FieldsCons(xs[0], c, tail);
      FieldsJoin(xs[1..], c);
      assert xs == [xs[0]] + xs[1..];
    }
  }

  /** When the last field of a join itself holds the separator, splitting
      stops being faithful there: the fields before it come back, then the
      last field's part before its first separator, then the fields of the
      rest. */
  lemma FieldsJoinLast(xs: seq<string>, a: string, rest: string, c: char)
    requires forall k :: 0 <= k < |xs| ==> c !in xs[k]
    requires c !in a
    ensures Fields(Join(xs + [a + [c] + rest], c), c) == xs + [a] + Fields(rest, c)
  {
    JoinSplitsField(xs, a, rest, [], c);
    assert xs + [a + [c] + rest] + [] == xs + [a + [c] + rest];
    assert xs + [a, rest] + [] == (xs + [a]) + [rest];
    FieldsJoinTail(xs + [a], rest, c);
  }

  /** Separator-free leading fields come back from a join, followed by the
      fields of whatever the last one holds. */
  lemma {:induction false} FieldsJoinTail(ys: seq<string>, t: string, c: char)
    requires |ys| >= 1
    requires forall k :: 0 <= k < |ys| ==> c !in ys[k]
    ensures Fields(Join(ys + [t], c), c) == ys + Fields(t, c)
    decreases |ys|
  {
    var y := ys[0];
    var tail := Join(ys[1..] + [t], c);
    JoinSnoc(ys, t, c);
    FieldsCons(y, c, tail);
    var back := if |ys| == 1 then Fields(t, c) else ys[1..] + Fields(t, c);
    assert Fields(tail, c) == back by {
      if |ys| == 1 {
        assert ys[1..] + [t] == [t];
      } else {
        FieldsJoinTail(ys[1..], t, c);
      }
    }
    PrependSplit(ys, Fields(t, c));
  }

  lemma PrependSplit(ys: seq<string>, zs: seq<string>)
    requires |ys| >= 1
    ensures ys + zs == [ys[0]] + (if |ys| == 1 then zs else ys[1..] + zs)
  {
    if |ys| == 1 {
      assert ys == [ys[0]];
    } else {
      assert ys == [ys[0]] + ys[1..];
    }
  }

  /** Joining with one more field at the end peels off the first field as usual. */
  lemma JoinSnoc(xs: seq<string>, z: string, c: char)
    requires |xs| >= 1
    ensures Join(xs + [z], c) == xs[0] + [c] + Join(xs[1..] + [z], c)
  {
    var ys := xs + [z];
    assert ys[1..] == xs[1..] + [z];
  }

  lemma {:induction false} JoinFields(s: string, c: char)
    ensures Join(Fields(s, c), c) == s
    decreases |s|
  {
    var i := IndexOf(s, c);
    if i < |s| {
      var rest := Fields(s[i + 1..], c);
      JoinFields(s[i + 1..], c);
      assert Fields(s, c) == [s[..i]] + rest;
      assert ([s[..i]] + rest)[1..] == rest;
      assert s == s[..i] + [c] + s[i + 1..];
    }
  }

  /** Separator-free fields whose last one is non-empty (or that are a single
      field) come back unchanged from `Split`. */
  lemma SplitJoin(xs: seq<string>, c: char)
    requires |xs| >= 1
    requires forall k :: 0 <= k < |xs| ==> c !in xs[k]
    requires |xs| == 1 || xs[|xs| - 1] != ""
    ensures Split(Join(xs, c), c) == xs
  {
    if |xs| == 1 {
      assert Join(xs, c) == xs[0];
    } else {
      SplitOfJoin(xs, c);
    }
  }

  /** Two or more separator-free fields joined: `Split` drops only the
      trailing empty ones. */
  lemma SplitOfJoin(xs: seq<string>, c: char)
    requires |xs| >= 2
    requires forall k :: 0 <= k < |xs| ==> c !in xs[k]
    ensures Split(Join(xs, c), c) == DropTrailingEmpty(xs)
  {
    var s := Join(xs, c);
    assert s == xs[0] + [c] + Join(xs[1..], c);
    assert s[|xs[0]|] == c;
    FieldsJoin(xs, c);
  }

  /** Trailing fields after a non-empty one never reach back past it. */
  lemma DropTrailingAppend(xs: seq<string>, ys: seq<string>)
    requires |xs| > 0 && xs[|xs| - 1] != ""
    ensures |DropTrailingEmpty(xs + ys)| >= |xs|
    ensures DropTrailingEmpty(xs + ys)[..|xs|] == xs
  {
    assert (xs + ys)[|xs| - 1] != "";
  }

  /** Splitting a join gives back every field up to the last non-empty one. */
  lemma SplitJoinUpTo(xs: seq<string>, c: char, k: nat)
    requires |xs| >= 2 && k < |xs| && xs[k] != ""
    requires forall i :: 0 <= i < |xs| ==> c !in xs[i]
    ensures |Split(Join(xs, c), c)| > k && Split(Join(xs, c), c)[..k + 1] == xs[..k + 1]
  {
    SplitOfJoin(xs, c);
    var r := DropTrailingEmpty(xs);
    assert |r| > k;
    assert r[..k + 1] == xs[..|r|][..k + 1];
  }

  lemma FieldsTwo(a: string, b: string, rest: string, c: char)
    requires c !in a && c !in b
    ensures Fields(a + [c] + b + [c] + rest, c) == [a, b] + Fields(rest, c)
  {
    var t := b + [c] + rest;
    assert a + [c] + b + [c] + rest == a + [c] + t by {
      assert a + [c] + b + [c] + rest == (a + [c]) + ((b + [c]) + rest);
    }
    FieldsCons(a, c, t);
    FieldsCons(b, c, rest);
    var f := Fields(rest, c);
    assert [a] + ([b] + f) == [a, b] + f;
  }

  /** The first two fields of `a:b:rest` are `a` and `b` whatever `rest` is,
      provided `b` is non-empty. */
  lemma SplitFirstTwo(a: string, b: string, rest: string, c: char)
    requires c !in a && c !in b && b != ""
    ensures |Split(a + [c] + b + [c] + rest, c)| >= 2
    ensures Split(a + [c] + b + [c] + rest, c)[..2] == [a, b]
  {
    var s := a + [c] + b + [c] + rest;
    FieldsTwo(a, b, rest, c);
    assert s[|a|] == c;
    DropTrailingAppend([a, b], Fields(rest, c));
  }

  /** The first two fields of `a:b` when `b` is non-empty. */
  lemma SplitPair(a: string, b: string, c: char)
    requires c !in a && c !in b && b != ""
    ensures Split(a + [c] + b, c) == [a, b]
  {
    assert Join([a, b], c) == a + [c] + b by {
      assert Join([a, b][1..], c) == b;
    }
    SplitJoin([a, b], c);
  }

  /** `a:` with nothing after the separator splits to `a` alone: the empty
      trailing field is dropped. */
  lemma SplitTrailing(a: string, c: char)
    requires c !in a && a != ""
    ensures Split(a + [c], c) == [a]
  {
    assert a + [c] == a + [c] + "";
    FieldsCons(a, c, "");
    assert Fields("", c) == [""];
    assert (a + [c])[|a|] == c;
    assert DropTrailingEmpty([a, ""]) == DropTrailingEmpty([a]);
  }

  /** `Split` never yields a field that contains the separator. */
  lemma SplitFieldsFree(s: string, c: char)
    ensures forall k :: 0 <= k < |Split(s, c)| ==> c !in Split(s, c)[k]
  {
    if c in s {
      var f := Fields(s, c);
      var r := DropTrailingEmpty(f);
      forall k | 0 <= k < |r| ensures c !in r[k] {
        assert r[k] == f[k];
      }
    }
  }

  // ---------------------------------------------------------------------
  // Facts about replace
  // ---------------------------------------------------------------------

  /** No occurrence of `t` can start inside a prefix that lacks `t`'s first character. */
  lemma {:induction false} ReplaceSkip(p: string, q: string, t: string, r: string)
    requires |t| > 0 && t[0] !in p
    ensures Replace(p + q, t, r) == p + Replace(q, t, r)
    decreases |p|
  {
    if |p| > 0 {
      var s := p + q;
      if |s| < |t| {
        assert Replace(q, t, r) == q;
      } else {
        assert s[..|t|][0] == p[0];
        assert s[1..] == p[1..] + q;
        ReplaceSkip(p[1..], q, t, r);
        assert p == [p[0]] + p[1..];
      }
    } else {
      assert p + q == q;
    }
  }

  lemma ReplaceAbsent(s: string, t: string, r: string)
    requires |t| > 0 && t[0] !in s
    ensures Replace(s, t, r) == s
  {
    ReplaceSkip(s, "", t, r);
    assert s + "" == s;
  }

  lemma ReplaceHit(q: string, t: string, r: string)
    requires |t| > 0
    ensures Replace(t + q, t, r) == r + Replace(q, t, r)
  {
    assert (t + q)[..|t|] == t;
    assert (t + q)[|t|..] == q;
  }

  /** A prefix `e` that begins like `t` but parts from it early is copied through. */
  lemma ReplaceMiss(e: string, q: string, t: string, r: string, k: nat)
    requires |t| > 0 && |e| > 0
    requires k < |e| && k < |t| && e[k] != t[k]
    requires t[0] !in e[1..]
    ensures Replace(e + q, t, r) == e + Replace(q, t, r)
  {
    var s := e + q;
    if |s| < |t| {
      assert |q| < |t|;
    } else {
      assert s[..|t|] != t by {
        assert s[..|t|][k] == e[k];
      }
      ReplaceMissStep(e, q, t, r);
    }
  }

  lemma ReplaceMissStep(e: string, q: string, t: string, r: string)
    requires |t| > 0 && |e| > 0 && |e + q| >= |t|
    requires (e + q)[..|t|] != t
    requires t[0] !in e[1..]
    ensures Replace(e + q, t, r) == e + Replace(q, t, r)
  {
    var s := e + q;
    assert s[0] == e[0];
    assert s[1..] == e[1..] + q;
    ReplaceSkip(e[1..], q, t, r);
    var x := Replace(q, t, r);
    assert Replace(s, t, r) == [e[0]] + (e[1..] + x);
    assert [e[0]] + (e[1..] + x) == ([e[0]] + e[1..]) + x;
    assert [e[0]] + e[1..] == e;
  }

  /** Replacing a single character distributes over concatenation. */
  lemma {:induction false} ReplaceCharConcat(p: string, q: string, c: char, r: string)
    ensures Replace(p + q, [c], r) == Replace(p, [c], r) + Replace(q, [c], r)
    decreases |p|
  {
    if |p| == 0 {
      assert p + q == q;
    } else {
      var s := p + q;
      assert s[..1] == [p[0]] && p[..1] == [p[0]];
      assert s[1..] == p[1..] + q;
      ReplaceCharConcat(p[1..], q, c, r);
    }
  }
}
