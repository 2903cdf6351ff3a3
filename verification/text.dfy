/** The pieces of `java.lang.String` the query builders rely on: `String.join`,
    `String.contains`, `String.split` (with its removal of trailing empty
    strings) and the decimal rendering of an `int`. Strings are `seq<char>`. */
module Text {

  // ---------------------------------------------------------------------------
  // Joining

  /** `String.join(sep, xs)`: the elements in order with `sep` between
      neighbours, so `|xs| - 1` separators and none at either end. */
  function Join(sep: string, xs: seq<string>): (r: string)
    ensures |xs| > 0 ==> |r| == TotalLength(xs) + |sep| * (|xs| - 1)
    ensures |xs| > 0 ==> xs[0] <= r
  {
    if |xs| == 0 then ""
    else if |xs| == 1 then xs[0]
    else xs[0] + sep + Join(sep, xs[1..])
  }

  /** Joining is what a builder that appends `sep` before every element after
      the first produces. */
  lemma {:induction false} JoinSnoc(sep: string, xs: seq<string>, y: string)
    requires |xs| > 0
    ensures Join(sep, xs + [y]) == Join(sep, xs) + sep + y
    decreases |xs|
  {
    if |xs| == 1 {
      assert xs + [y] == [xs[0], y];
      assert (xs + [y])[1..] == [y];
    } else {
      assert (xs + [y])[1..] == xs[1..] + [y];
      JoinSnoc(sep, xs[1..], y);
    }
  }

  /** The summed lengths of the pieces. */
  function TotalLength(xs: seq<string>): nat
  {
    if |xs| == 0 then 0 else |xs[0]| + TotalLength(xs[1..])
  }

  /** Plain concatenation of the pieces, in order. */
  function Concat(xs: seq<string>): string
  {
    if |xs| == 0 then "" else xs[0] + Concat(xs[1..])
  }

  lemma {:induction false} ConcatSnoc(xs: seq<string>, y: string)
    ensures Concat(xs + [y]) == Concat(xs) + y
    decreases |xs|
  {
    if |xs| == 0 {
      assert xs + [y] == [y];
    } else {
      assert (xs + [y])[1..] == xs[1..] + [y];
      ConcatSnoc(xs[1..], y);
    }
  }

  /** Builders append one piece at a time; regrouping the pieces does not
      change the text. */
  lemma AppendAssoc<T>(a: seq<T>, b: seq<T>, c: seq<T>)
    ensures (a + b) + c == a + (b + c)
  {
  }

  /** The concatenation of one more element of `xs`. */
  lemma ConcatPrefixStep(xs: seq<string>, i: nat)
    requires i < |xs|
    ensures Concat(xs[..i + 1]) == Concat(xs[..i]) + xs[i]
  {
    assert xs[..i + 1] == xs[..i] + [xs[i]];
    ConcatSnoc(xs[..i], xs[i]);
  }

  /** Every element followed by `sep` (the builder loops that append a
      separator after each element and trim the last one afterwards). */
  function Terminated(sep: string, xs: seq<string>): string
  {
    if |xs| == 0 then "" else xs[0] + sep + Terminated(sep, xs[1..])
  }

  lemma {:induction false} TerminatedSnoc(sep: string, xs: seq<string>, y: string)
    ensures Terminated(sep, xs + [y]) == Terminated(sep, xs) + y + sep
    decreases |xs|
  {
    if |xs| == 0 {
      assert xs + [y] == [y];
    } else {
      assert (xs + [y])[1..] == xs[1..] + [y];
      TerminatedSnoc(sep, xs[1..], y);
    }
  }

  /** One more element of a prefix adds that element and a separator. */
  lemma TerminatedPrefixStep(sep: string, xs: seq<string>, i: nat)
    requires i < |xs|
    ensures Terminated(sep, xs[..i + 1]) == Terminated(sep, xs[..i]) + (xs[i] + sep)
  {
    assert xs[..i + 1] == xs[..i] + [xs[i]];
    TerminatedSnoc(sep, xs[..i], xs[i]);
  }

  /** Trimming the separator after the last element leaves the join. */
  lemma {:induction false} TerminatedIsJoinThenSep(sep: string, xs: seq<string>)
    requires |xs| > 0
    ensures Terminated(sep, xs) == Join(sep, xs) + sep
    decreases |xs|
  {
    if |xs| > 1 {
      TerminatedIsJoinThenSep(sep, xs[1..]);
    }
  }

  // ---------------------------------------------------------------------------
  // Searching

  /** `String.contains`: `sub` occurs in `s` at some position. */
  predicate Contains(s: string, sub: string)
    decreases |s|
  {
    sub <= s || (|s| > 0 && Contains(s[1..], sub))
  }

  /** `sub` occurs in `s` starting at position `i`. */
  predicate OccursAt(s: string, sub: string, i: nat)
  {
    i + |sub| <= |s| && s[i..i + |sub|] == sub
  }

  /** Every occurrence makes `Contains` true. */
  lemma {:induction false} ContainsAt(s: string, sub: string, i: nat)
    requires OccursAt(s, sub, i)
    ensures Contains(s, sub)
    decreases i
  {
    if i > 0 {
      assert s[1..][i - 1..i - 1 + |sub|] == s[i..i + |sub|];
      assert OccursAt(s[1..], sub, i - 1);
      ContainsAt(s[1..], sub, i - 1);
    }
  }

  /** Conversely, whenever `Contains` holds there is an occurrence. */
  lemma {:induction false} ContainsWitness(s: string, sub: string) returns (i: nat)
    requires Contains(s, sub)
    ensures OccursAt(s, sub, i)
    decreases |s|
  {
    if sub <= s {
      i := 0;
    } else {
      var k := ContainsWitness(s[1..], sub);
      i := k + 1;
      assert s[1..][k..k + |sub|] == s[i..i + |sub|];
    }
  }

  /** Without an occurrence `Contains` is false. */
  lemma {:induction false} NotContains(s: string, sub: string)
    requires forall i: nat :: !OccursAt(s, sub, i)
    ensures !Contains(s, sub)
    decreases |s|
  {
    if |s| > 0 {
      forall i: nat ensures !OccursAt(s[1..], sub, i) {
        if i + |sub| <= |s[1..]| {
          assert s[1..][i..i + |sub|] == s[i + 1..i + 1 + |sub|];
          assert !OccursAt(s, sub, i + 1);
        }
      }
      NotContains(s[1..], sub);
    }
    assert !OccursAt(s, sub, 0);
  }

  // ---------------------------------------------------------------------------
  // Splitting on a single character (`split("\\.")`)

  /** The pieces between the occurrences of `c`, empty pieces included:
      one more piece than there are occurrences. */
  function Fields(s: string, c: char): (r: seq<string>)
    ensures |r| >= 1
    ensures forall i :: 0 <= i < |r| ==> c !in r[i]
    decreases |s|
  {
    if |s| == 0 then [""]
    else
      var rest := Fields(s[1..], c);
      if s[0] == c then [""] + rest else [[s[0]] + rest[0]] + rest[1..]
  }

  /** Joining the pieces with `c` again gives back the string. */
  lemma {:induction false} FieldsJoin(s: string, c: char)
    ensures Join([c], Fields(s, c)) == s
    decreases |s|
  {
    if |s| > 0 {
      FieldsJoin(s[1..], c);
      var rest := Fields(s[1..], c);
      if s[0] == c {
        assert s == [c] + s[1..];
      } else {
        assert s == [s[0]] + s[1..];
        if |rest| > 1 {
          assert Join([c], rest) == rest[0] + [c] + Join([c], rest[1..]);
        }
      }
    }
  }

  /** `limit == 0` behaviour of `String.split`: trailing empty strings are
      removed (all of them, which may leave nothing). */
  function DropTrailingEmpty(xs: seq<string>): (r: seq<string>)
    ensures r <= xs
    ensures |r| > 0 ==> r[|r| - 1] != ""
    ensures forall i :: |r| <= i < |xs| ==> xs[i] == ""
    decreases |xs|
  {
    if |xs| == 0 then []
    else if xs[|xs| - 1] == "" then DropTrailingEmpty(xs[..|xs| - 1])
    else xs
  }

  /** `s.split(regex)` where the regex matches the single character `c`.
      Without any match Java returns `{s}` itself, even when `s` is empty.
      No piece holds `c`, and after a match the last piece is not empty. */
  function SplitOn(s: string, c: char): (r: seq<string>)
    ensures forall i :: 0 <= i < |r| ==> c !in r[i]
    ensures c in s && |r| > 0 ==> r[|r| - 1] != ""
  {
    if c !in s then [s] else DropTrailingEmpty(Fields(s, c))
  }

  /** The pieces joined with `c` again give back the string without the run
      of separators that the split dropped from its end. */
  lemma SplitOnRejoin(s: string, c: char)
    ensures var j := Join([c], SplitOn(s, c));
      |j| <= |s| && s == j + Repeat(c, |s| - |j|)
  {
    if c in s {
      FieldsJoin(s, c);
      DropTrailingRejoin(c, Fields(s, c));
    }
  }

  /** Dropping the trailing empty pieces drops only separators from the end
      of the joined string. */
  lemma DropTrailingRejoin(c: char, xs: seq<string>)
    requires |xs| > 0
    ensures var j := Join([c], DropTrailingEmpty(xs));
      var whole := Join([c], xs);
      |j| <= |whole| && whole == j + Repeat(c, |whole| - |j|)
  {
    var r := DropTrailingEmpty(xs);
    var e := xs[|r|..];
    assert xs == r + e;
    assert AllEmpty(e) by {
      forall k | 0 <= k < |e| ensures e[k] == "" {
        assert e[k] == xs[|r| + k];
      }
    }
    if |r| > 0 {
      JoinEmpties(c, r, e);
    } else {
      assert xs == e;
      JoinAllEmpty(c, xs);
    }
  }

  /** Empty pieces joined with `c` leave only the separators. */
  lemma JoinAllEmpty(c: char, xs: seq<string>)
    requires |xs| > 0 && AllEmpty(xs)
    ensures Join([c], xs) == Repeat(c, |xs| - 1)
  {
    assert xs == xs[..1] + xs[1..];
    assert xs[..1] == [""];
    JoinEmpties(c, xs[..1], xs[1..]);
  }

  /** `n` copies of `c`. */
  function Repeat(c: char, n: nat): (r: string)
    ensures |r| == n
    ensures forall i :: 0 <= i < n ==> r[i] == c
  {
    if n == 0 then "" else [c] + Repeat(c, n - 1)
  }

  lemma {:induction false} FieldsNoSep(s: string, c: char)
    requires c !in s
    ensures Fields(s, c) == [s]
    decreases |s|
  {
    if |s| > 0 {
      assert s == [s[0]] + s[1..];
      FieldsNoSep(s[1..], c);
    }
  }

  /** A separator splits exactly between the pieces of either side. */
  lemma {:induction false} FieldsAppend(u: string, c: char, w: string)
    ensures Fields(u + [c] + w, c) == Fields(u, c) + Fields(w, c)
    decreases |u|
  {
    var s := u + [c] + w;
    if |u| == 0 {
      assert s[1..] == w;
    } else {
      assert s[1..] == u[1..] + [c] + w;
      FieldsAppend(u[1..], c, w);
    }
  }

  /** Pieces that are all empty. */
  predicate AllEmpty(xs: seq<string>)
  {
    forall i :: 0 <= i < |xs| ==> xs[i] == ""
  }

  lemma {:induction false} FieldsOfRun(c: char, n: nat)
    ensures |Fields(Repeat(c, n), c)| == n + 1
    ensures AllEmpty(Fields(Repeat(c, n), c))
    decreases n
  {
    if n > 0 {
      assert Repeat(c, n) == [] + [c] + Repeat(c, n - 1);
      FieldsAppend([], c, Repeat(c, n - 1));
      FieldsOfRun(c, n - 1);
    }
  }

  lemma {:induction false} DropTrailingEmptyKeeps(xs: seq<string>, e: seq<string>)
    requires |xs| > 0 && xs[|xs| - 1] != ""
    requires AllEmpty(e)
    ensures DropTrailingEmpty(xs + e) == xs
    decreases |e|
  {
    if |e| > 0 {
      assert (xs + e)[..|xs + e| - 1] == xs + e[..|e| - 1];
      DropTrailingEmptyKeeps(xs, e[..|e| - 1]);
    }
  }

  lemma {:induction false} JoinEmpties(c: char, xs: seq<string>, e: seq<string>)
    requires |xs| > 0
    requires AllEmpty(e)
    ensures Join([c], xs + e) == Join([c], xs) + Repeat(c, |e|)
    decreases |e|
  {
    if |e| > 0 {
      var e' := e[..|e| - 1];
      assert xs + e == (xs + e') + [""];
      JoinEmpties(c, xs, e');
      JoinSnoc([c], xs + e', "");
      assert Repeat(c, |e|) == Repeat(c, |e'|) + [c];
    } else {
      assert xs + e == xs;
    }
  }

  /** Two separator-free words, a separator between them and a run of
      separators after: the two words, then one piece per further separator. */
  lemma FieldsTwoThenRun(x: string, y: string, c: char, k: nat)
    requires c !in x && c !in y
    ensures Fields(x + [c] + y + [c] + Repeat(c, k), c) == [x, y] + Fields(Repeat(c, k), c)
  {
    var run := Repeat(c, k);
    var w := y + [c] + run;
    assert x + [c] + y + [c] + run == x + [c] + w;
    FieldsNoSep(y, c);
    FieldsAppend(y, c, run);
    var fw := Fields(w, c);
    assert fw == [y] + Fields(run, c);
    FieldsNoSep(x, c);
    FieldsAppend(x, c, w);
    assert [x] + fw == [x, y] + Fields(run, c);
  }

  /** `"x.y"`, and `"x.y"` followed by any number of dots, split into exactly
      `[x, y]` when neither part holds a dot and `y` is not empty. */
  lemma SplitIntoTwo(x: string, y: string, c: char, k: nat)
    requires c !in x && c !in y && y != ""
    ensures SplitOn(x + [c] + y + Repeat(c, k), c) == [x, y]
  {
    var s := x + [c] + y + Repeat(c, k);
    assert s[|x|] == c;
    var fy: seq<string>;
    if k == 0 {
      assert s == x + [c] + y;
      FieldsAppend(x, c, y);
      FieldsNoSep(x, c);
      FieldsNoSep(y, c);
      fy := [];
    } else {
      assert Repeat(c, k) == [c] + Repeat(c, k - 1);
      assert s == x + [c] + y + [c] + Repeat(c, k - 1);
      FieldsTwoThenRun(x, y, c, k - 1);
      FieldsOfRun(c, k - 1);
      fy := Fields(Repeat(c, k - 1), c);
    }
    assert Fields(s, c) == [x, y] + fy;
    DropTrailingEmptyKeeps([x, y], fy);
  }

  /** Conversely, a two-part split came from `"x.y"` plus trailing dots: the
      dots after `y` are silently dropped. */
  lemma SplitTwoShape(s: string, c: char)
    requires |SplitOn(s, c)| == 2
    ensures var r := SplitOn(s, c);
      && c !in r[0] && c !in r[1] && r[1] != ""
      && |r[0]| + |r[1]| + 1 <= |s|
      && s == r[0] + [c] + r[1] + Repeat(c, |s| - |r[0]| - |r[1]| - 1)
  {
    var r := SplitOn(s, c);
    assert c in s;
    var f := Fields(s, c);
    assert r == f[..2];
    var e := f[2..];
    assert f == r + e;
    assert AllEmpty(e);
    FieldsJoin(s, c);
    JoinEmpties(c, r, e);
    assert Join([c], r) == r[0] + [c] + r[1];
  }

  // ---------------------------------------------------------------------------
  // Splitting on runs of white space (`split("\\s+")`)

  /** The characters Java's regex class `\s` matches. */
  predicate IsSpace(ch: char)
  {
    ch == ' ' || ch == '\t' || ch == '\n' || ch == '\U{B}' || ch == '\U{C}' || ch == '\r'
  }

  predicate AllSpace(s: string)
  {
    forall i :: 0 <= i < |s| ==> IsSpace(s[i])
  }

  predicate HasSpace(s: string)
  {
    exists i :: 0 <= i < |s| && IsSpace(s[i])
  }

  /** `s` without its leading run of white space. */
  function DropSpaces(s: string): (r: string)
    ensures |r| <= |s| && r == s[|s| - |r|..]
    ensures AllSpace(s[..|s| - |r|])
    ensures |r| > 0 ==> !IsSpace(r[0])
  {
    if |s| > 0 && IsSpace(s[0]) then DropSpaces(s[1..]) else s
  }

  /** The pieces between maximal runs of white space, a leading empty piece
      when `s` starts with white space and a trailing one when it ends so. */
  function SpaceFields(s: string): (r: seq<string>)
    ensures |r| >= 1
    decreases |s|
  {
    if |s| == 0 then [""]
    else if IsSpace(s[0]) then [""] + SpaceFields(DropSpaces(s))
    else
      var rest := SpaceFields(s[1..]);
      [[s[0]] + rest[0]] + rest[1..]
  }

  /** Every piece is empty exactly when the string is all white space. */
  lemma {:induction false} SpaceFieldsAllEmptyIff(s: string)
    ensures AllSpace(s) <==> AllEmpty(SpaceFields(s))
    decreases |s|
  {
    if |s| == 0 {
    } else if IsSpace(s[0]) {
      var rest := DropSpaces(s);
      assert AllSpace(s) <==> AllSpace(rest) by {
        var k := |s| - |rest|;
        if |rest| > 0 {
          assert rest[0] == s[k];
        } else {
          assert s == s[..k];
        }
      }
      SpaceFieldsAllEmptyIff(rest);
      var tail := SpaceFields(rest);
      assert AllEmpty(tail) <==> AllEmpty([""] + tail) by {
        if AllEmpty(tail) {
          forall i | 0 <= i < |tail| + 1 ensures ([""] + tail)[i] == "" {
            if i > 0 { assert ([""] + tail)[i] == tail[i - 1]; }
          }
        }
        if AllEmpty([""] + tail) {
          forall i | 0 <= i < |tail| ensures tail[i] == "" {
            assert ([""] + tail)[i + 1] == tail[i];
          }
        }
      }
    } else {
      assert !AllSpace(s);
      var r := SpaceFields(s);
      assert |r[0]| > 0;
    }
  }

  lemma {:induction false} DropAllEmpty(xs: seq<string>)
    requires AllEmpty(xs)
    ensures DropTrailingEmpty(xs) == []
    decreases |xs|
  {
    if |xs| > 0 {
      DropAllEmpty(xs[..|xs| - 1]);
    }
  }

  /** `s.split("\\s+")`: no piece holds white space, and after a match the
      last piece is not empty. */
  function SplitWhitespace(s: string): (r: seq<string>)
    ensures forall i :: 0 <= i < |r| ==> !HasSpace(r[i])
    ensures HasSpace(s) && |r| > 0 ==> r[|r| - 1] != ""
  {
    if !HasSpace(s) then [s]
    else
      SpaceFieldsNoSpace(s);
      DropTrailingEmpty(SpaceFields(s))
  }

  lemma {:induction false} SpaceFieldsNoSpace(s: string)
    ensures forall i :: 0 <= i < |SpaceFields(s)| ==> !HasSpace(SpaceFields(s)[i])
    decreases |s|
  {
    if |s| > 0 {
      var fs := SpaceFields(s);
      if IsSpace(s[0]) {
        SpaceFieldsNoSpace(DropSpaces(s));
        var t := SpaceFields(DropSpaces(s));
        assert fs == [""] + t;
        forall i | 0 <= i < |fs| ensures !HasSpace(fs[i]) {
          if i > 0 {
            assert fs[i] == t[i - 1];
          }
        }
      } else {
        SpaceFieldsNoSpace(s[1..]);
        var rest := SpaceFields(s[1..]);
        var w := [s[0]] + rest[0];
        assert !HasSpace(rest[0]);
        assert !HasSpace(w) by {
          forall j | 0 <= j < |w| ensures !IsSpace(w[j]) {
            if j > 0 {
              assert w[j] == rest[0][j - 1];
            }
          }
        }
        assert fs == [w] + rest[1..];
        forall i | 0 <= i < |fs| ensures !HasSpace(fs[i]) {
          if i > 0 {
            assert fs[i] == rest[i];
          }
        }
      }
    }
  }

  /** A word without white space is a single piece. */
  lemma {:induction false} SpaceFieldsOfWord(w: string)
    requires !HasSpace(w)
    ensures SpaceFields(w) == [w]
    decreases |w|
  {
    if |w| > 0 {
      assert !IsSpace(w[0]);
      assert !HasSpace(w[1..]) by {
        forall i | 0 <= i < |w[1..]| ensures !IsSpace(w[1..][i]) {
          assert w[1..][i] == w[i + 1];
        }
      }
      SpaceFieldsOfWord(w[1..]);
      assert w == [w[0]] + w[1..];
    }
  }

  lemma {:induction false} DropSpacesRun(sp: string, w: string)
    requires AllSpace(sp)
    requires |w| == 0 || !IsSpace(w[0])
    ensures DropSpaces(sp + w) == w
    decreases |sp|
  {
    if |sp| > 0 {
      assert (sp + w)[1..] == sp[1..] + w;
      DropSpacesRun(sp[1..], w);
    } else {
      assert sp + w == w;
    }
  }

  /** A leading run of white space contributes one empty piece. */
  lemma SpaceFieldsLeadingRun(sp: string, w: string)
    requires |sp| > 0 && AllSpace(sp)
    requires |w| == 0 || !IsSpace(w[0])
    ensures SpaceFields(sp + w) == [""] + SpaceFields(w)
  {
    assert (sp + w)[0] == sp[0];
    DropSpacesRun(sp, w);
  }

  /** A word followed by white space is the first piece. */
  lemma {:induction false} SpaceFieldsWordThenRun(t: string, x: string)
    requires |t| > 0 && !HasSpace(t)
    requires |x| > 0 && IsSpace(x[0])
    ensures SpaceFields(t + x) == [t] + SpaceFields(x)[1..]
    decreases |t|
  {
    var s := t + x;
    assert s[0] == t[0] && !IsSpace(t[0]);
    assert s[1..] == t[1..] + x;
    if |t| == 1 {
      assert s[1..] == x;
      var rest := SpaceFields(x);
      assert rest[0] == "";
      assert [s[0]] + rest[0] == t;
    } else {
      assert !HasSpace(t[1..]) by {
        forall i | 0 <= i < |t[1..]| ensures !IsSpace(t[1..][i]) {
          assert t[1..][i] == t[i + 1];
        }
      }
      SpaceFieldsWordThenRun(t[1..], x);
      assert t == [t[0]] + t[1..];
    }
  }

  /** Dropping trailing empty pieces never reaches a non-empty piece. */
  lemma {:induction false} DropTrailingEmptyKeepsPrefix(xs: seq<string>, ys: seq<string>)
    requires |xs| > 0 && xs[|xs| - 1] != ""
    ensures |DropTrailingEmpty(xs + ys)| >= |xs|
    ensures DropTrailingEmpty(xs + ys)[..|xs|] == xs
    decreases |ys|
  {
    if |ys| == 0 {
      assert xs + ys == xs;
    } else if ys[|ys| - 1] == "" {
      assert (xs + ys)[..|xs + ys| - 1] == xs + ys[..|ys| - 1];
      DropTrailingEmptyKeepsPrefix(xs, ys[..|ys| - 1]);
    } else {
      assert (xs + ys)[..|xs|] == xs;
    }
  }

  /** A word, alone or followed by white space, is the first piece. */
  lemma SpaceFieldsWordFirst(a: string, x: string)
    requires |a| > 0 && !HasSpace(a)
    requires |x| == 0 || IsSpace(x[0])
    ensures SpaceFields(a + x)[0] == a
  {
    if |x| == 0 {
      assert a + x == a;
      SpaceFieldsOfWord(a);
    } else {
      SpaceFieldsWordThenRun(a, x);
    }
  }

  lemma SpaceFieldsTwoWords(t: string, sp: string, a: string, x: string)
    requires |t| > 0 && !HasSpace(t)
    requires |sp| > 0 && AllSpace(sp)
    requires |a| > 0 && !HasSpace(a)
    requires |x| == 0 || IsSpace(x[0])
    ensures |SpaceFields(t + sp + a + x)| >= 2
    ensures SpaceFields(t + sp + a + x)[..2] == [t, a]
  {
    var w := a + x;
    var tail := sp + w;
    assert t + sp + a + x == t + tail;
    assert w[0] == a[0] && !IsSpace(a[0]);
    SpaceFieldsWordFirst(a, x);
    var f := SpaceFields(w);
    SpaceFieldsLeadingRun(sp, w);
    var g := SpaceFields(tail);
    assert g == [""] + f;
    assert tail[0] == sp[0];
    SpaceFieldsWordThenRun(t, tail);
    var h := SpaceFields(t + tail);
    assert h == [t] + f by {
      assert g[1..] == f;
    }
    assert h[..2] == [t, f[0]];
  }

  /** `"t a"`, with any run of white space between and anything after a
      further run of white space, splits into `t` and `a` first. */
  lemma SplitWhitespaceTwoWords(t: string, sp: string, a: string, x: string)
    requires |t| > 0 && !HasSpace(t)
    requires |sp| > 0 && AllSpace(sp)
    requires |a| > 0 && !HasSpace(a)
    requires |x| == 0 || IsSpace(x[0])
    ensures var r := SplitWhitespace(t + sp + a + x);
      |r| >= 2 && r[0] == t && r[1] == a
  {
    var s := t + sp + a + x;
    assert IsSpace(s[|t|]);
    SpaceFieldsTwoWords(t, sp, a, x);
    var f := SpaceFields(s);
    assert f == [t, a] + f[2..];
    DropTrailingEmptyKeepsPrefix([t, a], f[2..]);
  }

  /** The split is empty exactly when `s` is non-empty white space. */
  lemma SplitWhitespaceEmptyIff(s: string)
    ensures |SplitWhitespace(s)| == 0 <==> |s| > 0 && AllSpace(s)
  {
    if HasSpace(s) {
      var f := SpaceFields(s);
      var r := DropTrailingEmpty(f);
      SpaceFieldsAllEmptyIff(s);
      if |r| == 0 {
        assert AllEmpty(f);
      }
      if AllSpace(s) {
        DropAllEmpty(f);
      }
    } else if |s| > 0 {
      assert !IsSpace(s[0]);
    }
  }

  // ---------------------------------------------------------------------------
  // Decimal rendering (`StringBuilder.append(int)`)

  function DigitChar(d: nat): char
    requires d < 10
  {
    "0123456789"[d]
  }

  function DigitValue(ch: char): nat
  {
    if '0' <= ch <= '9' then (ch as int - '0' as int) as nat else 0
  }

  /** A non-empty run of decimal digits with no leading zero (except "0"). */
  predicate IsDecimal(s: string)
  {
    && |s| > 0
    && (forall i :: 0 <= i < |s| ==> '0' <= s[i] <= '9')
    && (|s| > 1 ==> s[0] != '0')
  }

  /** The decimal digits of `n`, most significant first, without leading zeros. */
  function NatToString(n: nat): (r: string)
    ensures IsDecimal(r)
    decreases n
  {
    if n < 10 then [DigitChar(n)] else NatToString(n / 10) + [DigitChar(n % 10)]
  }

  /** Reads a string of decimal digits back as a number. */
  function DigitsValue(s: string): nat
    decreases |s|
  {
    if |s| == 0 then 0 else DigitsValue(s[..|s| - 1]) * 10 + DigitValue(s[|s| - 1])
  }

  /** The rendering loses nothing: reading the digits back gives `n`. */
  lemma {:induction false} NatToStringRoundTrip(n: nat)
    ensures DigitsValue(NatToString(n)) == n
    decreases n
  {
    if n >= 10 {
      NatToStringRoundTrip(n / 10);
      var s := NatToString(n);
      assert s[..|s| - 1] == NatToString(n / 10);
    }
  }

  /** `Integer.toString`: a minus sign before the digits of a negative value. */
  function IntToString(i: int): (r: string)
    ensures |r| > 0
    ensures i >= 0 ==> IsDecimal(r) && DigitsValue(r) == i
    ensures i < 0 ==> r[0] == '-' && IsDecimal(r[1..]) && DigitsValue(r[1..]) == -i
  {
    if i < 0 then
      NatToStringRoundTrip(-i);
      "-" + NatToString(-i)
    else
      NatToStringRoundTrip(i);
      NatToString(i)
  }
}
