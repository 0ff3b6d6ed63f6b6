/** String helpers shared by the key-space model: lexicographic order by
    Unicode code point (the model's stand-in for the order of JavaScript's
    default `sort()`), `String.prototype.split` with a
    non-empty separator, ASCII lower-casing and substring search. */
module Strings {

  /** Strict lexicographic order on strings, comparing characters by their
      Unicode code points. */
  predicate StrLt(a: string, b: string)
  {
    if |b| == 0 then false
    else if |a| == 0 then true
    else if a[0] != b[0] then a[0] < b[0]
    else StrLt(a[1..], b[1..])
  }

  lemma StrLtIrreflexive(a: string)
    ensures !StrLt(a, a)
  {
  }

  lemma StrLtAsymmetric(a: string, b: string)
    ensures StrLt(a, b) ==> !StrLt(b, a)
  {
  }

  lemma StrLtTransitive(a: string, b: string, c: string)
    ensures StrLt(a, b) && StrLt(b, c) ==> StrLt(a, c)
  {
    if StrLt(a, b) && StrLt(b, c) && |a| > 0 && a[0] == b[0] && b[0] == c[0] {
      StrLtTransitive(a[1..], b[1..], c[1..]);
    }
  }

  lemma StrLtTotal(a: string, b: string)
    ensures a == b || StrLt(a, b) || StrLt(b, a)
  {
    if |a| > 0 && |b| > 0 && a[0] == b[0] {
      StrLtTotal(a[1..], b[1..]);
      assert a == [a[0]] + a[1..] && b == [b[0]] + b[1..];
    }
  }

  /** Non-strict code-point order: the model of the order JavaScript's
      default `Array.prototype.sort` puts strings in. */
  predicate StrLe(a: string, b: string)
  {
    !StrLt(b, a)
  }

  /** `s.split(sep)` for a non-empty separator: the pieces between the
      leftmost non-overlapping occurrences of `sep`. */
  function Split(s: string, sep: string): (parts: seq<string>)
    requires |sep| > 0
    ensures |parts| >= 1
    decreases |s|
  {
    if |s| < |sep| then [s]
    else if s[..|sep|] == sep then [""] + Split(s[|sep|..], sep)
    else
      var rest := Split(s[1..], sep);
      [[s[0]] + rest[0]] + rest[1..]
  }

  /** `parts.join(sep)`. */
  function Join(parts: seq<string>, sep: string): string
  {
    if |parts| == 0 then ""
    else if |parts| == 1 then parts[0]
    else parts[0] + sep + Join(parts[1..], sep)
  }

  /** Joining the pieces of a split gives back the original string. */
  lemma {:induction false} JoinSplit(s: string, sep: string)
    requires |sep| > 0
    ensures Join(Split(s, sep), sep) == s
    decreases |s|
  {
    if |s| < |sep| {
    } else if s[..|sep|] == sep {
      JoinSplit(s[|sep|..], sep);
      JoinSplitAtSep(s, sep);
    } else {
      JoinSplit(s[1..], sep);
      JoinSplitAtChar(s, sep);
    }
  }

  /** The step of JoinSplit where the string starts with the separator. */
  lemma JoinSplitAtSep(s: string, sep: string)
    requires |sep| > 0 && |s| >= |sep| && s[..|sep|] == sep
    requires Join(Split(s[|sep|..], sep), sep) == s[|sep|..]
    ensures Join(Split(s, sep), sep) == s
  {
    SplitAtSep(s, sep);
    JoinCons("", Split(s[|sep|..], sep), sep);
    SepPrefix(s, sep);
  }

  /** A string that starts with the separator is the empty piece, the
      separator and the rest. */
  lemma SepPrefix(s: string, sep: string)
    requires |s| >= |sep| && s[..|sep|] == sep
    ensures s == "" + sep + s[|sep|..]
  {
    assert s == s[..|sep|] + s[|sep|..];
  }

  /** One step of Split at a leading separator. */
  lemma SplitAtSep(s: string, sep: string)
    requires |sep| > 0 && |s| >= |sep| && s[..|sep|] == sep
    ensures Split(s, sep) == [""] + Split(s[|sep|..], sep)
  {
  }

  /** Joining a piece in front of at least one more puts a separator
      between it and the rest's join. */
  lemma JoinCons(a: string, parts: seq<string>, sep: string)
    requires |parts| > 0
    ensures Join([a] + parts, sep) == a + sep + Join(parts, sep)
  {
    assert ([a] + parts)[1..] == parts;
  }

  /** The step of JoinSplit where the string starts with another character. */
  lemma JoinSplitAtChar(s: string, sep: string)
    requires |sep| > 0 && |s| >= |sep| && s[..|sep|] != sep
    requires Join(Split(s[1..], sep), sep) == s[1..]
    ensures Join(Split(s, sep), sep) == s
  {
    var rest := Split(s[1..], sep);
    assert Split(s, sep) == [[s[0]] + rest[0]] + rest[1..];
    JoinConsHead(s[0], rest, sep);
    assert s == [s[0]] + s[1..];
  }

  /** Prepending a character to the first piece prepends it to the join. */
  lemma JoinConsHead(c: char, parts: seq<string>, sep: string)
    requires |parts| > 0
    ensures Join([[c] + parts[0]] + parts[1..], sep) == [c] + Join(parts, sep)
  {
    var q := [[c] + parts[0]] + parts[1..];
    assert q[0] == [c] + parts[0] && q[1..] == parts[1..];
    if |parts| > 1 {
      assert Join(q, sep) == ([c] + parts[0]) + sep + Join(parts[1..], sep);
      assert ([c] + parts[0]) + sep + Join(parts[1..], sep) == [c] + (parts[0] + sep + Join(parts[1..], sep));
    }
  }

  /** Keys that split into the same segments are the same key. */
  lemma SplitInjective(a: string, b: string, sep: string)
    requires |sep| > 0
    requires Split(a, sep) == Split(b, sep)
    ensures a == b
  {
    JoinSplit(a, sep);
    JoinSplit(b, sep);
  }

  /** Splitting on a one-character separator yields one more piece than the
      string has occurrences of that character. */
  lemma {:induction false} SplitCountsOccurrences(s: string, c: char)
    ensures |Split(s, [c])| == multiset(s)[c] + 1
    decreases |s|
  {
    if |s| == 0 {
    } else {
      assert s == [s[0]] + s[1..];
      assert multiset(s)[c] == multiset([s[0]])[c] + multiset(s[1..])[c];
      SplitCountsOccurrences(s[1..], c);
      assert s[..1] == [s[0]];
    }
  }

  /** Joining two non-empty segment lists puts the separator between them. */
  lemma {:induction false} JoinAppend(p: seq<string>, q: seq<string>, sep: string)
    requires |p| > 0 && |q| > 0
    ensures Join(p + q, sep) == Join(p, sep) + sep + Join(q, sep)
    decreases |p|
  {
    if |p| == 1 {
      assert (p + q)[1..] == q;
    } else {
      assert (p + q)[1..] == p[1..] + q;
      JoinAppend(p[1..], q, sep);
    }
  }

  /** ASCII upper-case letters mapped to lower case; every other character kept. */
  function LowerChar(c: char): char
  {
    if 'A' <= c <= 'Z' then (c as int - 'A' as int + 'a' as int) as char else c
  }

  function Lower(s: string): (r: string)
    ensures |r| == |s|
    ensures forall i :: 0 <= i < |s| ==> r[i] == LowerChar(s[i])
  {
    if s == [] then [] else [LowerChar(s[0])] + Lower(s[1..])
  }

  /** `sub` occurs in `s` starting at index `i`. */
  predicate OccursAt(s: string, sub: string, i: int)
  {
    0 <= i && i + |sub| <= |s| && s[i..i + |sub|] == sub
  }

  /** `s.includes(sub)`. */
  predicate Contains(s: string, sub: string): (r: bool)
    ensures sub == [] ==> r
  {
    assert sub == [] ==> OccursAt(s, sub, 0);
    exists i :: 0 <= i <= |s| && OccursAt(s, sub, i)
  }

  predicate StartsWith(s: string, prefix: string)
  {
    |prefix| <= |s| && s[..|prefix|] == prefix
  }

  /** No piece of a split on a one-character separator contains that character. */
  lemma {:induction false} SplitPiecesFree(s: string, c: char)
    ensures forall i :: 0 <= i < |Split(s, [c])| ==> c !in Split(s, [c])[i]
    decreases |s|
  {
    if |s| >= 1 {
      SplitPiecesFree(s[1..], c);
      if s[..1] != [c] {
        assert s[..1] == [s[0]];
        var rest := Split(s[1..], [c]);
        var r := [[s[0]] + rest[0]] + rest[1..];
        forall i | 0 <= i < |r| ensures c !in r[i] {
          if i > 0 {
            assert r[i] == rest[i];
          }
        }
      }
    }
  }

  /** A string without the separator is a single piece. */
  lemma {:induction false} SplitFree(a: string, c: char)
    requires c !in a
    ensures Split(a, [c]) == [a]
    decreases |a|
  {
    if |a| >= 1 {
      assert a[..1] == [a[0]];
      SplitFree(a[1..], c);
      assert [a[0]] + a[1..] == a;
    }
  }

  /** The first separator after a separator-free piece ends that piece. */
  lemma {:induction false} SplitFreePrefix(a: string, c: char, b: string)
    requires c !in a
    ensures Split(a + [c] + b, [c]) == [a] + Split(b, [c])
    decreases |a|
  {
    var s := a + [c] + b;
    if a == [] {
      assert s == [c] + b && s[..1] == [c] && s[1..] == b;
    } else {
      assert s[..1] == [a[0]] && s[1..] == a[1..] + [c] + b;
      SplitFreePrefix(a[1..], c, b);
      assert [s[0]] + a[1..] == a;
    }
  }

  /** Splitting the join of separator-free pieces gives the pieces back. */
  lemma {:induction false} SplitJoinFree(p: seq<string>, c: char)
    requires p != [] && forall i :: 0 <= i < |p| ==> c !in p[i]
    ensures Split(Join(p, [c]), [c]) == p
    decreases |p|
  {
    if |p| == 1 {
      SplitFree(p[0], c);
    } else {
      SplitJoinFree(p[1..], c);
      SplitFreePrefix(p[0], c, Join(p[1..], [c]));
      assert [p[0]] + p[1..] == p;
    }
  }

  /** ... and a separator after that join starts the pieces of what follows. */
  lemma {:induction false} SplitJoinFreeThen(p: seq<string>, c: char, b: string)
    requires p != [] && forall i :: 0 <= i < |p| ==> c !in p[i]
    ensures Split(Join(p, [c]) + [c] + b, [c]) == p + Split(b, [c])
    decreases |p|
  {
    if |p| == 1 {
      SplitFreePrefix(p[0], c, b);
    } else {
      var tail := Join(p[1..], [c]) + [c] + b;
      JoinThenFirst(p, c, b);
      SplitJoinFreeThen(p[1..], c, b);
      SplitFreePrefix(p[0], c, tail);
      ConsTail(p, Split(b, [c]));
    }
  }

  /** The first piece of a join of two or more comes off with its separator. */
  lemma JoinThenFirst(p: seq<string>, c: char, b: string)
    requires |p| >= 2
    ensures Join(p, [c]) + [c] + b == p[0] + [c] + (Join(p[1..], [c]) + [c] + b)
  {
    assert Join(p, [c]) == p[0] + [c] + Join(p[1..], [c]);
    Regroup(p[0] + [c], Join(p[1..], [c]), [c], b);
  }

  lemma Regroup(x: string, j: string, y: string, b: string)
    ensures x + j + y + b == x + (j + y + b)
  {
  }

  lemma ConsTail<T>(p: seq<T>, x: seq<T>)
    requires p != []
    ensures [p[0]] + (p[1..] + x) == p + x
  {
    assert [p[0]] + p[1..] == p;
  }
}
