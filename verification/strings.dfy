/**
  The two functions of Go's `strings` package that the feed-version derivation
  uses, on Dafny strings: `Split` with a one-character separator, and
  `ReplaceAll` with an empty replacement (called `DeleteAll` here).
*/
module Strings {

  /** Number of occurrences of `c` in `s`. */
  function Count(s: string, c: char): (n: nat)
    ensures n <= |s|
    ensures n == 0 <==> c !in s
    decreases |s|
  {
    if |s| == 0 then 0
    else (if s[0] == c then 1 else 0) + Count(s[1..], c)
  }

  /**
    `strings.Split(s, string(sep))`: the fields between the separators, in order.
    There is always one more field than there are separators, so even the empty
    string gives one (empty) field.
  */
  function Split(s: string, sep: char): (fields: seq<string>)
    ensures |fields| == Count(s, sep) + 1
    ensures forall i :: 0 <= i < |fields| ==> sep !in fields[i]
    decreases |s|
  {
    if |s| == 0 then [""]
    else
      var rest := Split(s[1..], sep);
      if s[0] == sep then [""] + rest
      else [[s[0]] + rest[0]] + rest[1..]
  }

  /** `strings.Join(fields, string(sep))`, the inverse of `Split`. */
  function Join(fields: seq<string>, sep: char): string
    requires |fields| >= 1
    decreases |fields|
  {
    if |fields| == 1 then fields[0]
    else fields[0] + [sep] + Join(fields[1..], sep)
  }

  /** Joining the fields of `s` gives `s` back. */
  lemma {:induction false} JoinSplit(s: string, sep: char)
    ensures Join(Split(s, sep), sep) == s
    decreases |s|
  {
    if |s| > 0 {
      JoinSplit(s[1..], sep);
      var rest := Split(s[1..], sep);
      if s[0] == sep {
        assert Split(s, sep) == [""] + rest;
        assert ([""] + rest)[1..] == rest;
      } else {
        var fields := Split(s, sep);
        assert fields == [[s[0]] + rest[0]] + rest[1..];
        if |rest| == 1 {
          assert fields == [[s[0]] + rest[0]];
        } else {
          assert fields[1..] == rest[1..];
          assert Join(rest, sep) == rest[0] + [sep] + Join(rest[1..], sep);
        }
        assert s == [s[0]] + s[1..];
      }
    }
  }

  /** Splitting at a separator splits the two sides independently. */
  lemma {:induction false} SplitAppend(u: string, v: string, sep: char)
    ensures Split(u + [sep] + v, sep) == Split(u, sep) + Split(v, sep)
    decreases |u|
  {
    var w := u + [sep] + v;
    if |u| == 0 {
      assert w[1..] == v;
    } else {
      assert w[0] == u[0];
      assert w[1..] == u[1..] + [sep] + v;
      SplitAppend(u[1..], v, sep);
    }
  }

  /** A string without the separator is a single field. */
  lemma SplitWithoutSeparator(s: string, sep: char)
    requires sep !in s
    ensures Split(s, sep) == [s]
  {
    JoinSplit(s, sep);
  }

  /** Splitting a join of separator-free fields gives the fields back. */
  lemma {:induction false} SplitJoin(fields: seq<string>, sep: char)
    requires |fields| >= 1
    requires forall i :: 0 <= i < |fields| ==> sep !in fields[i]
    ensures Split(Join(fields, sep), sep) == fields
    decreases |fields|
  {
    SplitWithoutSeparator(fields[0], sep);
    if |fields| > 1 {
      SplitJoin(fields[1..], sep);
      SplitAppend(fields[0], Join(fields[1..], sep), sep);
    }
  }

  /**
    The last field of a join is a suffix of the joined string, and when there
    is more than one field the separator stands right before it.
  */
  lemma {:induction false} JoinEndsWithLast(fields: seq<string>, sep: char)
    requires |fields| >= 1
    ensures var s := Join(fields, sep); var last := fields[|fields| - 1];
      |last| <= |s| && s[|s| - |last|..] == last
    ensures var s := Join(fields, sep); var last := fields[|fields| - 1];
      |fields| > 1 ==> |last| < |s| && s[|s| - |last| - 1] == sep
    decreases |fields|
  {
    if |fields| > 1 {
      JoinEndsWithLast(fields[1..], sep);
      var s, t, last := Join(fields, sep), Join(fields[1..], sep), fields[|fields| - 1];
      assert s == fields[0] + [sep] + t;
      if |fields| == 2 {
        assert t == last;
      } else {
        assert s[|s| - |last| - 1] == t[|t| - |last| - 1];
      }
    }
  }

  /** `pat` occurs in `s` starting at index `i`. */
  predicate OccursAt(s: string, pat: string, i: int)
  {
    0 <= i && i + |pat| <= |s| && s[i..i + |pat|] == pat
  }

  predicate Occurs(s: string, pat: string)
  {
    exists i | 0 <= i <= |s| :: OccursAt(s, pat, i)
  }

  lemma OccurrenceCharAt(s: string, pat: string, i: int, k: int)
    requires OccursAt(s, pat, i) && 0 <= k < |pat|
    ensures s[i + k] == pat[k]
  {
    assert s[i..i + |pat|][k] == s[i + k];
  }

  /**
    `strings.ReplaceAll(s, pat, "")`: scanning left to right, every
    non-overlapping occurrence of `pat` is dropped. Text that a deletion brings
    together is not scanned again.
  */
  function DeleteAll(s: string, pat: string): (r: string)
    requires |pat| > 0
    ensures |r| <= |s|
    ensures forall c :: c in r ==> c in s
    decreases |s|
  {
    if |s| == 0 then ""
    else if pat <= s then DeleteAll(s[|pat|..], pat)
    else [s[0]] + DeleteAll(s[1..], pat)
  }

  /** Characters before the first occurrence of `pat` are kept as they are. */
  lemma {:induction false} DeleteAllKeepsClearPrefix(x: string, y: string, pat: string)
    requires |pat| > 0
    requires forall i :: 0 <= i < |x| ==> !OccursAt(x + y, pat, i)
    ensures DeleteAll(x + y, pat) == x + DeleteAll(y, pat)
    decreases |x|
  {
    if |x| > 0 {
      var w := x + y;
      assert !OccursAt(w, pat, 0);
      assert !(pat <= w);
      assert w[0] == x[0];
      assert w[1..] == x[1..] + y;
      forall i | 0 <= i < |x[1..]|
        ensures !OccursAt(x[1..] + y, pat, i)
      {
        assert !OccursAt(w, pat, i + 1);
      }
      DeleteAllKeepsClearPrefix(x[1..], y, pat);
      calc {
        DeleteAll(w, pat);
        [x[0]] + DeleteAll(x[1..] + y, pat);
        [x[0]] + (x[1..] + DeleteAll(y, pat));
        { assert x == [x[0]] + x[1..]; }
        x + DeleteAll(y, pat);
      }
    } else {
      assert x + y == y;
    }
  }

  /** A string in which `pat` does not occur is left unchanged. */
  lemma DeleteAllWithoutOccurrence(s: string, pat: string)
    requires |pat| > 0 && !Occurs(s, pat)
    ensures DeleteAll(s, pat) == s
  {
    assert s + "" == s;
    DeleteAllKeepsClearPrefix(s, "", pat);
  }

  /**
    A separator that `pat` does not contain cannot be part of an occurrence,
    so no occurrence spans the join of two occurrence-free strings.
  */
  lemma NoOccurrenceAcross(u: string, v: string, sep: char, pat: string)
    requires |pat| > 0 && sep !in pat
    requires !Occurs(u, pat) && !Occurs(v, pat)
    ensures !Occurs(u + [sep] + v, pat)
  {
    var w := u + [sep] + v;
    if i :| OccursAt(w, pat, i) {
      if i + |pat| <= |u| {
        assert w[i..i + |pat|] == u[i..i + |pat|];
        assert OccursAt(u, pat, i);
      } else if i > |u| {
        var j := i - |u| - 1;
        assert w[i..i + |pat|] == v[j..j + |pat|];
        assert OccursAt(v, pat, j);
      } else {
        OccurrenceCharAt(w, pat, i, |u| - i);
      }
      assert false;
    }
  }
}
