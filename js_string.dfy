/** The JavaScript string built-ins the redirect merger relies on, on
    `seq<char>`: `split` on one character, `Array.prototype.join`,
    `indexOf`, `replace` with a string pattern (first occurrence only) and
    `replace` with a global one-character regular expression. */
module JsString {
  import opened Wrappers

  /** Number of occurrences of `c` in `s`. */
  function Count(s: string, c: char): nat
  {
    if s == [] then 0 else (if s[0] == c then 1 else 0) + Count(s[1..], c)
  }

  lemma {:induction false} CountZero(s: string, c: char)
    ensures Count(s, c) == 0 <==> c !in s
  {
    if s != [] {
      CountZero(s[1..], c);
      assert s == [s[0]] + s[1..];
    }
  }

  lemma {:induction false} CountConcat(a: string, b: string, c: char)
    ensures Count(a + b, c) == Count(a, c) + Count(b, c)
  {
    if a == [] {
      assert a + b == b;
    } else {
      assert (a + b)[1..] == a[1..] + b;
      CountConcat(a[1..], b, c);
    }
  }

  /** `s.split(sep)` for a one-character separator: the pieces between
      separators, in order, empty pieces included; never an empty list. */
  function Split(s: string, sep: char): (pieces: seq<string>)
    ensures |pieces| == Count(s, sep) + 1
    ensures forall i :: 0 <= i < |pieces| ==> sep !in pieces[i]
  {
    if s == [] then [""]
    else
      var rest := Split(s[1..], sep);
      if s[0] == sep then [""] + rest
      else [[s[0]] + rest[0]] + rest[1..]
  }

  /** `pieces.join(sep)`: the first piece leads. */
  function Join(pieces: seq<string>, sep: string): (r: string)
    ensures |pieces| > 0 ==> pieces[0] <= r
  {
    if |pieces| == 0 then ""
    else if |pieces| == 1 then pieces[0]
    else pieces[0] + sep + Join(pieces[1..], sep)
  }

  /** Joining the pieces of a split with the separator gives the string back. */
  lemma {:induction false} JoinSplit(s: string, sep: char)
    ensures Join(Split(s, sep), [sep]) == s
  {
    if s != [] {
      var rest := Split(s[1..], sep);
      JoinSplit(s[1..], sep);
      var pieces := Split(s, sep);
      if s[0] == sep {
        assert pieces[1..] == rest;
      } else if |rest| > 1 {
        assert pieces[1..] == rest[1..];
        assert Join(rest, [sep]) == rest[0] + [sep] + Join(rest[1..], [sep]);
      }
    }
  }

  /** Splitting a string that starts with a separator-free `a`. */
  lemma {:induction false} SplitPrefix(a: string, b: string, sep: char)
    requires sep !in a
    ensures Split(a + b, sep) == [a + Split(b, sep)[0]] + Split(b, sep)[1..]
  {
    if a != [] {
      assert (a + b)[1..] == a[1..] + b;
      SplitPrefix(a[1..], b, sep);
      assert [a[0]] + (a[1..] + Split(b, sep)[0]) == a + Split(b, sep)[0];
    } else {
      var pb := Split(b, sep);
      assert a + b == b && a + pb[0] == pb[0];
      assert pb == [pb[0]] + pb[1..];
    }
  }

  /** Splitting a join of separator-free pieces gives the pieces back. */
  lemma {:induction false} SplitJoin(pieces: seq<string>, sep: char)
    requires |pieces| > 0
    requires forall i :: 0 <= i < |pieces| ==> sep !in pieces[i]
    ensures Split(Join(pieces, [sep]), sep) == pieces
  {
    if |pieces| == 1 {
      SplitPrefix(pieces[0], "", sep);
      assert pieces[0] + "" == pieces[0];
    } else {
      var tail := Join(pieces[1..], [sep]);
      SplitJoin(pieces[1..], sep);
      assert Join(pieces, [sep]) == pieces[0] + ([sep] + tail);
      SplitPrefix(pieces[0], [sep] + tail, sep);
      assert ([sep] + tail)[1..] == tail;
      assert Split([sep] + tail, sep) == [""] + pieces[1..];
      assert pieces[0] + "" == pieces[0];
    }
  }

  /** `pat` occurs in `s` starting at position `i`. */
  predicate OccursAt(s: string, pat: string, i: nat)
  {
    i + |pat| <= |s| && s[i..i + |pat|] == pat
  }

  /** `s.indexOf(pat)`: the first position where `pat` occurs, `None` for
      JavaScript's -1. The empty pattern occurs at 0. */
  function IndexOf(s: string, pat: string): (r: Option<nat>)
    ensures r.Some? ==> OccursAt(s, pat, r.value)
    ensures r.Some? ==> forall j: nat :: j < r.value ==> !OccursAt(s, pat, j)
    ensures r.None? ==> forall j: nat :: !OccursAt(s, pat, j)
  {
    IndexFrom(s, pat, 0)
  }

  /** The first position at or after `k` where `pat` occurs in `s`. */
  function IndexFrom(s: string, pat: string, k: nat): (r: Option<nat>)
    ensures r.Some? ==> k <= r.value && OccursAt(s, pat, r.value)
    ensures r.Some? ==> forall j: nat :: k <= j < r.value ==> !OccursAt(s, pat, j)
    ensures r.None? ==> forall j: nat :: k <= j ==> !OccursAt(s, pat, j)
    decreases |s| - k
  {
    if OccursAt(s, pat, k) then Some(k)
    else if |s| <= k + |pat| then None
    else IndexFrom(s, pat, k + 1)
  }

  /** `s.replace(pat, rep)` with a string pattern and a replacement free of
      `$` patterns: only the first occurrence of `pat` is replaced. Without
      an occurrence `s` is returned; otherwise putting `pat` back in place
      of `rep` at the first occurrence gives `s`. */
  function ReplaceFirst(s: string, pat: string, rep: string): (r: string)
    ensures IndexOf(s, pat).None? ==> r == s
    ensures IndexOf(s, pat).Some? ==>
      var i := IndexOf(s, pat).value;
      |r| == |s| - |pat| + |rep| && r[i..i + |rep|] == rep &&
      s == r[..i] + pat + r[i + |rep|..]
  {
    match IndexOf(s, pat)
    case None => s
    case Some(i) => s[..i] + rep + s[i + |pat|..]
  }

  /** Every character of a `ReplaceFirst` result comes from `s` or `rep`. */
  lemma ReplaceFirstChars(s: string, pat: string, rep: string)
    ensures forall d :: d in ReplaceFirst(s, pat, rep) ==> d in s || d in rep
  {
    match IndexOf(s, pat)
    case None =>
    case Some(i) =>
      var r := s[..i] + rep + s[i + |pat|..];
      assert ReplaceFirst(s, pat, rep) == r;
      forall d | d in r ensures d in s || d in rep {
        if d in s[..i] {
          InTake(s, i, d);
        } else if d in s[i + |pat|..] {
          InDrop(s, i + |pat|, d);
        }
      }
  }

  lemma InTake<T>(s: seq<T>, i: nat, d: T)
    requires i <= |s| && d in s[..i]
    ensures d in s
  {
    var k :| 0 <= k < i && s[..i][k] == d;
    assert s[k] == d;
  }

  lemma InDrop<T>(s: seq<T>, i: nat, d: T)
    requires i <= |s| && d in s[i..]
    ensures d in s
  {
    var k :| 0 <= k < |s| - i && s[i..][k] == d;
    assert s[i + k] == d;
  }

  /** `s.replace(/c/g, rep)`: every `c` becomes `rep`, every other
      character is kept in order. */
  function ReplaceAll(s: string, c: char, rep: string): (r: string)
    ensures |r| + Count(s, c) == |s| + Count(s, c) * |rep|
    ensures forall d :: d in r ==> (d in s && d != c) || d in rep
  {
    if s == [] then ""
    else (if s[0] == c then rep else [s[0]]) + ReplaceAll(s[1..], c, rep)
  }

  /** `ReplaceAll` agrees with JavaScript's `s.split(c).join(rep)`. */
  lemma {:induction false} ReplaceAllIsSplitJoin(s: string, c: char, rep: string)
    ensures ReplaceAll(s, c, rep) == Join(Split(s, c), rep)
  {
    if s != [] {
      ReplaceAllIsSplitJoin(s[1..], c, rep);
      var rest := Split(s[1..], c);
      var pieces := Split(s, c);
      if s[0] == c {
        assert pieces[1..] == rest;
      } else if |rest| > 1 {
        assert pieces[1..] == rest[1..];
        assert Join(rest, rep) == rest[0] + rep + Join(rest[1..], rep);
      }
    }
  }

  /** `ReplaceAll` distributes over concatenation. */
  lemma {:induction false} ReplaceAllConcat(a: string, b: string, c: char, rep: string)
    ensures ReplaceAll(a + b, c, rep) == ReplaceAll(a, c, rep) + ReplaceAll(b, c, rep)
  {
    if a == [] {
      assert a + b == b;
    } else {
      assert (a + b)[1..] == a[1..] + b;
      ReplaceAllConcat(a[1..], b, c, rep);
    }
  }

  /** A string without `c` is left unchanged. */
  lemma {:induction false} ReplaceAllAbsent(s: string, c: char, rep: string)
    requires c !in s
    ensures ReplaceAll(s, c, rep) == s
  {
    if s != [] {
      assert c !in s[1..] by {
        forall d | d in s[1..] ensures d != c {
          var k :| 0 <= k < |s| - 1 && s[1..][k] == d;
          assert s[k + 1] == d;
        }
      }
      ReplaceAllAbsent(s[1..], c, rep);
      assert s == [s[0]] + s[1..];
    }
  }

  /** A separator at the end of a string yields a last, empty piece. */
  lemma {:induction false} SplitEndingInSeparator(a: string, sep: char)
    ensures Split(a + [sep], sep) == Split(a, sep) + [""]
  {
    if a == [] {
      assert [sep][1..] == [];
    } else {
      assert (a + [sep])[1..] == a[1..] + [sep];
      SplitEndingInSeparator(a[1..], sep);
    }
  }

  /** With a one-character replacement, `ReplaceAll` maps characters one to one. */
  lemma {:induction false} ReplaceAllAt(s: string, c: char, d: char)
    ensures |ReplaceAll(s, c, [d])| == |s|
    ensures forall k :: 0 <= k < |s| ==> ReplaceAll(s, c, [d])[k] == if s[k] == c then d else s[k]
  {
    if s != [] {
      ReplaceAllAt(s[1..], c, d);
      assert forall k :: 1 <= k < |s| ==> s[1..][k - 1] == s[k];
    }
  }

  /** Two strings of one length that agree wherever either matches `pat`
      have the same occurrences of `pat`. */
  lemma OccursAtPointwise(a: string, b: string, pat: string, j: nat)
    requires |a| == |b|
    requires forall k :: j <= k < j + |pat| && k < |a| ==> (a[k] == pat[k - j] <==> b[k] == pat[k - j])
    ensures OccursAt(a, pat, j) <==> OccursAt(b, pat, j)
  {
    if j + |pat| <= |a| {
      if OccursAt(a, pat, j) {
        forall m | 0 <= m < |pat| ensures b[j + m] == pat[m] {
          assert a[j..j + |pat|][m] == a[j + m];
        }
        assert b[j..j + |pat|] == pat;
      }
      if OccursAt(b, pat, j) {
        forall m | 0 <= m < |pat| ensures a[j + m] == pat[m] {
          assert b[j..j + |pat|][m] == b[j + m];
        }
        assert a[j..j + |pat|] == pat;
      }
    }
  }
}
