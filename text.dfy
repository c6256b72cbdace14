/** String operations of Python's `str` that the generator relies on:
    `replace` with a one-character pattern, `"sep".join`, `split` on one
    character, and the per-character rewriting that a chain of replacements
    amounts to. */
module Text {

  /** `s.replace(c, rep)`: every occurrence of the character `c` is replaced
      by `rep`, left to right. With a one-character pattern the occurrences
      never overlap, so this is a rewrite of each character on its own. */
  function Replace(s: string, c: char, rep: string): string
  {
    if s == [] then [] else (if s[0] == c then rep else [s[0]]) + Replace(s[1..], c, rep)
  }

  /** Concatenation of `f(x)` over the characters `x` of `s`, in order. */
  function FlatMap(f: char -> string, s: string): string
  {
    if s == [] then [] else f(s[0]) + FlatMap(f, s[1..])
  }

  /** Number of occurrences of `c` in `s`. */
  function Count(s: string, c: char): nat
  {
    if s == [] then 0 else (if s[0] == c then 1 else 0) + Count(s[1..], c)
  }

  /** A table of one-character replacements, applied in order. */
  type Replacements = seq<(char, string)>

  /** The first `n` replacements of `steps` composed left to right: the
      value of `s` after `n` rounds of
      `for c, rep in steps: s = s.replace(c, rep)`. */
  function ApplyFirst(steps: Replacements, n: nat, s: string): string
    requires n <= |steps|
  {
    if n == 0 then s
    else Replace(ApplyFirst(steps, n - 1, s), steps[n - 1].0, steps[n - 1].1)
  }

  /** The whole table applied to `s`, first entry first. */
  function ApplyAll(steps: Replacements, s: string): string
  {
    ApplyFirst(steps, |steps|, s)
  }

  /** The replacement text of the first entry for `c`, or `c` itself when
      the table has none: what the table means for one character. */
  function Lookup(steps: Replacements, c: char): string
  {
    if steps == [] then [c]
    else if steps[0].0 == c then steps[0].1
    else Lookup(steps[1..], c)
  }

  /** `sep.join(lines)`. */
  function Join(lines: seq<string>, sep: string): string
  {
    if lines == [] then []
    else if |lines| == 1 then lines[0]
    else lines[0] + sep + Join(lines[1..], sep)
  }

  /** `s.split(sep)` for a one-character separator: the maximal pieces
      between separators, always at least one (`"".split(sep) == [""]`). */
  function Split(s: string, sep: char): (r: seq<string>)
    ensures |r| == Count(s, sep) + 1
  {
    if s == [] then [[]]
    else
      var tail := Split(s[1..], sep);
      if s[0] == sep then [[]] + tail else [[s[0]] + tail[0]] + tail[1..]
  }

  // ---------------------------------------------------------------------
  // Replace

  /** Replacing characters commutes with concatenation. */
  lemma {:induction false} ReplaceConcat(a: string, b: string, c: char, rep: string)
    ensures Replace(a + b, c, rep) == Replace(a, c, rep) + Replace(b, c, rep)
  {
    if a != [] {
      assert (a + b)[0] == a[0] && (a + b)[1..] == a[1..] + b;
      ReplaceConcat(a[1..], b, c, rep);
    } else {
      assert a + b == b;
    }
  }

  /** A character is in the result exactly when it survives from `s` (it is
      not `c`) or it comes from a replacement of an occurrence of `c`. */
  lemma {:induction false} ReplaceMembers(s: string, c: char, rep: string, x: char)
    ensures x in Replace(s, c, rep) <==> (x in s && x != c) || (c in s && x in rep)
  {
    if s != [] {
      ReplaceMembers(s[1..], c, rep, x);
      assert s == [s[0]] + s[1..];
    }
  }

  /** The length grows by `|rep| - 1` per occurrence of `c`. */
  lemma {:induction false} ReplaceLength(s: string, c: char, rep: string)
    ensures |Replace(s, c, rep)| == |s| + Count(s, c) * (|rep| - 1)
  {
    if s != [] {
      ReplaceLength(s[1..], c, rep);
    }
  }

  // ---------------------------------------------------------------------
  // FlatMap

  /** A character of `FlatMap(f, s)` comes from the image of some character of `s`. */
  lemma {:induction false} FlatMapMembers(f: char -> string, s: string, x: char)
    ensures x in FlatMap(f, s) <==> exists i :: 0 <= i < |s| && x in f(s[i])
  {
    if s != [] {
      FlatMapMembers(f, s[1..], x);
      if x in FlatMap(f, s[1..]) {
        var i :| 0 <= i < |s[1..]| && x in f(s[1..][i]);
        assert x in f(s[i + 1]);
      }
      if exists i :: 0 <= i < |s| && x in f(s[i]) {
        var i :| 0 <= i < |s| && x in f(s[i]);
        if i > 0 {
          assert x in f(s[1..][i - 1]);
        }
      }
    }
  }

  /** A rewrite that keeps every character of `s` leaves `s` as it is. */
  lemma {:induction false} FlatMapIdentity(f: char -> string, s: string)
    requires forall i :: 0 <= i < |s| ==> f(s[i]) == [s[i]]
    ensures FlatMap(f, s) == s
  {
    if s != [] {
      FlatMapIdentity(f, s[1..]);
      assert [s[0]] + s[1..] == s;
    }
  }

  /** When every character maps to at least itself in length, the image is
      never shorter; it has the same length exactly when every character of
      `s` maps to a single character. */
  lemma {:induction false} FlatMapLength(f: char -> string, s: string)
    requires forall x :: |f(x)| >= 1
    ensures |FlatMap(f, s)| >= |s|
    ensures |FlatMap(f, s)| == |s| <==> forall i :: 0 <= i < |s| ==> |f(s[i])| == 1
  {
    if s != [] {
      FlatMapLength(f, s[1..]);
      assert forall i :: 1 <= i < |s| ==> s[i] == s[1..][i - 1];
    }
  }

  // ---------------------------------------------------------------------
  // ApplyAll

  /** A chain of replacements commutes with concatenation, like each of its steps. */
  lemma {:induction false} ApplyFirstConcat(steps: Replacements, n: nat, a: string, b: string)
    requires n <= |steps|
    ensures ApplyFirst(steps, n, a + b) == ApplyFirst(steps, n, a) + ApplyFirst(steps, n, b)
  {
    if n > 0 {
      var c, rep := steps[n - 1].0, steps[n - 1].1;
      var ab := ApplyFirst(steps, n - 1, a + b);
      var a', b' := ApplyFirst(steps, n - 1, a), ApplyFirst(steps, n - 1, b);
      ApplyFirstConcat(steps, n - 1, a, b);
      assert ab == a' + b';
      ReplaceConcat(a', b', c, rep);
      assert ApplyFirst(steps, n, a + b) == Replace(ab, c, rep);
      assert ApplyFirst(steps, n, a) == Replace(a', c, rep);
      assert ApplyFirst(steps, n, b) == Replace(b', c, rep);
    }
  }

  /** The empty string is left empty. */
  lemma ApplyAllEmpty(steps: Replacements)
    ensures ApplyAll(steps, []) == []
  {
    var e: string := [];
    assert e + e == e;
    ApplyFirstConcat(steps, |steps|, e, e);
  }

  /** Hence the chain is the per-character rewrite `f` that agrees with it
      on every one-character string. */
  lemma {:induction false} ApplyAllIsFlatMap(steps: Replacements, f: char -> string, s: string)
    requires forall x :: ApplyAll(steps, [x]) == f(x)
    ensures ApplyAll(steps, s) == FlatMap(f, s)
  {
    if s != [] {
      assert s == [s[0]] + s[1..];
      ApplyFirstConcat(steps, |steps|, [s[0]], s[1..]);
      ApplyAllIsFlatMap(steps, f, s[1..]);
    } else {
      ApplyAllEmpty(steps);
    }
  }

  lemma {:induction false} ReplaceIdentity(s: string, c: char, rep: string)
    requires c !in s
    ensures Replace(s, c, rep) == s
  {
    if s != [] {
      ReplaceIdentity(s[1..], c, rep);
      assert s == [s[0]] + s[1..];
    }
  }

  /** Replacing the one character of `[c]`. */
  lemma ReplaceSelf(c: char, rep: string)
    ensures Replace([c], c, rep) == rep
  {
  }

  /** Steps `n` to `m - 1`, whose patterns do not occur in the text reached
      after `n` steps, leave that text as it is. */
  lemma {:induction false} ApplyFirstUntouched(steps: Replacements, n: nat, m: nat, s: string)
    requires n <= m <= |steps|
    requires forall k :: n <= k < m ==> steps[k].0 !in ApplyFirst(steps, n, s)
    ensures ApplyFirst(steps, m, s) == ApplyFirst(steps, n, s)
  {
    if n < m {
      ApplyFirstUntouched(steps, n, m - 1, s);
      ReplaceIdentity(ApplyFirst(steps, m - 1, s), steps[m - 1].0, steps[m - 1].1);
    }
  }

  /** On a one-character string equal to the pattern of step `i` (and to no
      earlier pattern), the first `i + 1` steps yield that step's replacement text. */
  lemma ApplyFirstAtKey(steps: Replacements, i: nat, c: char)
    requires i < |steps| && steps[i].0 == c
    requires forall j :: 0 <= j < i ==> steps[j].0 != c
    ensures ApplyFirst(steps, i + 1, [c]) == steps[i].1
  {
    ApplyFirstUntouched(steps, 0, i, [c]);
    ReplaceSelf(c, steps[i].1);
  }

  /** The ordering argument: once step `i` has removed its pattern, the
      pattern stays absent as long as no later replacement text contains it. */
  lemma {:induction false} ApplyFirstRemoves(steps: Replacements, i: nat, n: nat, s: string)
    requires i < n <= |steps|
    requires forall j :: i <= j < n ==> steps[i].0 !in steps[j].1
    ensures steps[i].0 !in ApplyFirst(steps, n, s)
  {
    if i < n - 1 {
      ApplyFirstRemoves(steps, i, n - 1, s);
    }
    ReplaceMembers(ApplyFirst(steps, n - 1, s), steps[n - 1].0, steps[n - 1].1, steps[i].0);
  }

  /** Replacement texts that are never empty never shorten the string. */
  lemma {:induction false} ApplyFirstGrows(steps: Replacements, n: nat, s: string)
    requires n <= |steps|
    requires forall j :: 0 <= j < |steps| ==> |steps[j].1| >= 1
    ensures |ApplyFirst(steps, n, s)| >= |s|
  {
    if n > 0 {
      ApplyFirstGrows(steps, n - 1, s);
      ReplaceLength(ApplyFirst(steps, n - 1, s), steps[n - 1].0, steps[n - 1].1);
    }
  }

  /** In a table whose patterns are pairwise distinct, the entry for a
      pattern is the one at its position. */
  lemma {:induction false} LookupAt(steps: Replacements, i: nat)
    requires i < |steps|
    requires forall j :: 0 <= j < i ==> steps[j].0 != steps[i].0
    ensures Lookup(steps, steps[i].0) == steps[i].1
  {
    if i > 0 {
      LookupAt(steps[1..], i - 1);
    }
  }

  /** A character without an entry stands for itself. */
  lemma {:induction false} LookupMissing(steps: Replacements, c: char)
    requires forall j :: 0 <= j < |steps| ==> steps[j].0 != c
    ensures Lookup(steps, c) == [c]
  {
    if steps != [] {
      LookupMissing(steps[1..], c);
    }
  }

  // ---------------------------------------------------------------------
  // Join and Split

  /** Splitting on a separator that `a` does not contain stops right after `a`. */
  lemma {:induction false} SplitAfter(a: string, sep: char, b: string)
    requires sep !in a
    ensures Split(a + [sep] + b, sep) == [a] + Split(b, sep)
  {
    if a == [] {
      assert a + [sep] + b == [sep] + b;
    } else {
      assert (a + [sep] + b)[1..] == a[1..] + [sep] + b;
      SplitAfter(a[1..], sep, b);
      assert [a[0]] + a[1..] == a;
    }
  }

  /** Splitting at one separator splits the two sides independently. */
  lemma {:induction false} SplitConcat(a: string, sep: char, b: string)
    ensures Split(a + [sep] + b, sep) == Split(a, sep) + Split(b, sep)
  {
    if a == [] {
      assert a + [sep] + b == [sep] + b;
      assert ([sep] + b)[1..] == b;
    } else {
      assert (a + [sep] + b)[0] == a[0];
      assert (a + [sep] + b)[1..] == a[1..] + [sep] + b;
      SplitConcat(a[1..], sep, b);
    }
  }

  /** Splitting a string that holds no separator gives the string back. */
  lemma {:induction false} SplitNone(s: string, sep: char)
    requires sep !in s
    ensures Split(s, sep) == [s]
  {
    if s != [] {
      SplitNone(s[1..], sep);
      assert [s[0]] + s[1..] == s;
    }
  }

  /** `split` undoes `join` when no piece holds the separator. */
  lemma {:induction false} SplitJoin(lines: seq<string>, sep: char)
    requires lines != []
    requires forall k :: 0 <= k < |lines| ==> sep !in lines[k]
    ensures Split(Join(lines, [sep]), sep) == lines
  {
    if |lines| == 1 {
      SplitNone(lines[0], sep);
    } else {
      SplitJoin(lines[1..], sep);
      SplitAfter(lines[0], sep, Join(lines[1..], [sep]));
    }
  }

  lemma {:induction false} CountConcat(a: string, b: string, c: char)
    ensures Count(a + b, c) == Count(a, c) + Count(b, c)
  {
    if a != [] {
      assert (a + b)[0] == a[0] && (a + b)[1..] == a[1..] + b;
      CountConcat(a[1..], b, c);
    } else {
      assert a + b == b;
    }
  }

  lemma {:induction false} CountAbsent(s: string, c: char)
    ensures Count(s, c) == 0 <==> c !in s
  {
    if s != [] {
      CountAbsent(s[1..], c);
      assert s == [s[0]] + s[1..];
    }
  }

  /** Joining `n` separator-free pieces with a one-character separator puts
      exactly `n - 1` separators in the result. */
  lemma {:induction false} JoinCount(lines: seq<string>, sep: char)
    requires lines != []
    requires forall k :: 0 <= k < |lines| ==> sep !in lines[k]
    ensures Count(Join(lines, [sep]), sep) == |lines| - 1
  {
    CountAbsent(lines[0], sep);
    if |lines| > 1 {
      JoinCount(lines[1..], sep);
      CountConcat(lines[0], [sep], sep);
      CountConcat(lines[0] + [sep], Join(lines[1..], [sep]), sep);
    }
  }

  /** A character is in a join exactly when it is in a piece or in a separator
      that sits between two pieces. */
  lemma {:induction false} JoinMembers(lines: seq<string>, sep: string, x: char)
    ensures x in Join(lines, sep)
        <==> (exists k :: 0 <= k < |lines| && x in lines[k]) || (|lines| > 1 && x in sep)
  {
    if |lines| > 1 {
      JoinMembers(lines[1..], sep, x);
      if exists k :: 0 <= k < |lines[1..]| && x in lines[1..][k] {
        var k :| 0 <= k < |lines[1..]| && x in lines[1..][k];
        assert x in lines[k + 1];
      }
      if exists k :: 0 <= k < |lines| && x in lines[k] {
        var k :| 0 <= k < |lines| && x in lines[k];
        if k > 0 {
          assert x in lines[1..][k - 1];
        }
      }
    }
  }
}
