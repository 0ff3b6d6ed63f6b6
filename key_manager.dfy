/** KeyManager of src/redis/key-manager.ts: the keys loaded from the store
    with SCAN, sorted, and the client-side case-insensitive filter over them.
    The store's SCAN replies are an input: the i-th call receives the i-th
    reply. */
module KeyManagement {
  import opened Wrappers
  import opened Strings

  /** The COUNT hint passed with every SCAN call. */
  const ScanCount: nat := 100

  /** One SCAN call: the cursor sent, the MATCH pattern and the COUNT hint. */
  datatype ScanRequest = ScanRequest(cursor: nat, pattern: string, count: nat)

  /** What one SCAN call gives back: the next cursor and a batch of keys, or
      a failure (the call threw). */
  datatype ScanReply = Batch(cursor: nat, keys: seq<string>) | Failed

  /** Why loadKeys gave up. */
  datatype ScanError = ScanFailed

  /** The loop stops at this reply: it failed or it returned cursor 0. */
  predicate Terminal(r: ScanReply)
  {
    r.Failed? || r.cursor == 0
  }

  /** The keys of the first `n` replies, in order. */
  function Collected(replies: seq<ScanReply>, n: nat): seq<string>
    requires n <= |replies|
  {
    if n == 0 then []
    else Collected(replies, n - 1) + (if replies[n - 1].Batch? then replies[n - 1].keys else [])
  }

  /** Index of the reply that ends the loop. */
  function FirstTerminal(replies: seq<ScanReply>): (i: nat)
    requires exists i :: 0 <= i < |replies| && Terminal(replies[i])
    ensures i < |replies| && Terminal(replies[i])
    ensures forall j :: 0 <= j < i ==> !Terminal(replies[j])
    decreases |replies|
  {
    if Terminal(replies[0]) then 0
    else
      var k :| 0 <= k < |replies| && Terminal(replies[k]);
      assert Terminal(replies[1..][k - 1]);
      FirstTerminal(replies[1..]) + 1
  }

  /** The do-while SCAN loop of loadKeys: start at cursor 0, send the
      returned cursor back, and stop once the returned cursor is 0. A failed
      call ends the loop with the failure. The replies must end the loop at
      some point. */
  method Scan(pattern: string, replies: seq<ScanReply>)
    returns (outcome: Result<seq<string>, ScanError>, requests: seq<ScanRequest>)
    requires exists i :: 0 <= i < |replies| && Terminal(replies[i])
    ensures 1 <= |requests| <= |replies|
    ensures requests[0].cursor == 0
    ensures forall j :: 0 <= j < |requests| ==> requests[j].pattern == pattern && requests[j].count == ScanCount
    ensures forall j :: 0 <= j < |requests| - 1 ==>
      !Terminal(replies[j]) && requests[j + 1].cursor == replies[j].cursor
    ensures Terminal(replies[|requests| - 1])
    ensures |requests| == FirstTerminal(replies) + 1
    ensures outcome.Success? <==> replies[|requests| - 1].Batch?
    ensures outcome.Success? ==> outcome.value == Collected(replies, |requests|)
  {
    var cursor: nat := 0;
    var keys: seq<string> := [];
    var i := 0;
    requests := [];
    ghost var stop :| 0 <= stop < |replies| && Terminal(replies[stop]);
    var done := false;
    while !done
      invariant i <= |replies| && |requests| == i
      invariant !done ==> i <= stop
      invariant done ==> 1 <= i && replies[i - 1].Batch? && replies[i - 1].cursor == 0
      invariant i == 0 ==> cursor == 0
      invariant i > 0 ==> replies[i - 1].Batch? && cursor == replies[i - 1].cursor
      invariant !done && i > 0 ==> !Terminal(replies[i - 1])
      invariant i > 0 ==> requests[0].cursor == 0
      invariant forall j :: 0 <= j < i ==> requests[j].pattern == pattern && requests[j].count == ScanCount
      invariant forall j :: 0 <= j < i - 1 ==>
        replies[j].Batch? && !Terminal(replies[j]) && requests[j + 1].cursor == replies[j].cursor
      invariant keys == Collected(replies, i)
      decreases |replies| - i, !done
    {
      requests := requests + [ScanRequest(cursor, pattern, ScanCount)];
      var reply := replies[i];
      if reply.Failed? {
        outcome := Failure(ScanFailed);
        return;
      }
      cursor := reply.cursor;
      keys := keys + reply.keys;
      i := i + 1;
      done := cursor == 0;
    }
    outcome := Success(keys);
  }

  /** Every element is at most every later one. */
  predicate Sorted(s: seq<string>)
  {
    forall i, j :: 0 <= i < j < |s| ==> StrLe(s[i], s[j])
  }

  /** Insert `x` into the sorted `s` after every element not greater than it. */
  function InsertSorted(s: seq<string>, x: string): (r: seq<string>)
    requires Sorted(s)
    ensures Sorted(r)
    ensures multiset(r) == multiset(s) + multiset{x}
  {
    if s == [] then [x]
    else if StrLe(s[0], x) then
      var rest := InsertSorted(s[1..], x);
      InsertAfterHead(s, x, rest);
      [s[0]] + rest
    else
      InsertBeforeHead(s, x);
      [x] + s
  }

  /** Keeping the head in front of the sorted insertion into the tail keeps
      the list sorted, when the head is not greater than the new key. */
  lemma InsertAfterHead(s: seq<string>, x: string, rest: seq<string>)
    requires s != [] && Sorted(s) && StrLe(s[0], x)
    requires Sorted(rest) && multiset(rest) == multiset(s[1..]) + multiset{x}
    ensures Sorted([s[0]] + rest)
    ensures multiset([s[0]] + rest) == multiset(s) + multiset{x}
  {
    SplitFirst(s);
    forall y | y in multiset(rest) ensures StrLe(s[0], y) {
      if y != x {
        assert y in multiset(s[1..]);
        var j :| 0 <= j < |s[1..]| && s[1..][j] == y;
        assert s[j + 1] == y;
      }
    }
    SortedCons(s[0], rest);
  }

  /** A key less than the head of a sorted list may go in front of it. */
  lemma InsertBeforeHead(s: seq<string>, x: string)
    requires s != [] && Sorted(s) && !StrLe(s[0], x)
    ensures Sorted([x] + s)
  {
    StrLtTotal(s[0], x);
    forall y | y in multiset(s) ensures StrLe(x, y) {
      var j :| 0 <= j < |s| && s[j] == y;
      if j > 0 {
        assert StrLe(s[0], s[j]);
      }
      StrLtAsymmetric(x, s[0]);
      StrLtIrreflexive(s[0]);
      if StrLt(y, x) {
        StrLtTransitive(y, x, s[0]);
      }
    }
    SortedCons(x, s);
  }

  /** A non-empty list is its first element followed by the rest. */
  lemma SplitFirst<T>(s: seq<T>)
    requires s != []
    ensures s == [s[0]] + s[1..]
  {
  }

  lemma SortedCons(x: string, s: seq<string>)
    requires Sorted(s) && forall y :: y in multiset(s) ==> StrLe(x, y)
    ensures Sorted([x] + s)
  {
    forall j | 0 <= j < |s| ensures StrLe(x, s[j]) {
      assert s[j] in multiset(s);
    }
  }

  /** `keys.sort()`: the keys in ascending order, duplicates kept. */
  function SortKeys(keys: seq<string>): (r: seq<string>)
    ensures Sorted(r)
    ensures multiset(r) == multiset(keys)
  {
    if keys == [] then []
    else
      assert keys == keys[..|keys| - 1] + [keys[|keys| - 1]];
      InsertSorted(SortKeys(keys[..|keys| - 1]), keys[|keys| - 1])
  }

  /** `key.toLowerCase().includes(term.toLowerCase())`. */
  predicate Matches(key: string, term: string): (r: bool)
    ensures term == "" ==> r
  {
    Contains(Lower(key), Lower(term))
  }

  /** `keys.filter(...)`: the keys matching `term`, in their original order. */
  function FilterMatching(keys: seq<string>, term: string): (r: seq<string>)
    ensures |r| <= |keys|
    ensures forall k :: multiset(r)[k] == if Matches(k, term) then multiset(keys)[k] else 0
    decreases |keys|
  {
    if keys == [] then []
    else
      var init := keys[..|keys| - 1];
      var last := keys[|keys| - 1];
      assert keys == init + [last];
      var rest := FilterMatching(init, term);
      if Matches(last, term) then rest + [last] else rest
  }

  /** `a` is `b` with some elements left out, the rest in their order. */
  predicate Subsequence(a: seq<string>, b: seq<string>)
    decreases |b|
  {
    if a == [] then true
    else if b == [] then false
    else if a[|a| - 1] == b[|b| - 1] && Subsequence(a[..|a| - 1], b[..|b| - 1]) then true
    else Subsequence(a, b[..|b| - 1])
  }

  /** The filter keeps the matching keys in the order they had: the result
      is a subsequence of the input, and every key in it matches. */
  lemma {:induction false} FilterKeepsOrder(keys: seq<string>, term: string)
    ensures Subsequence(FilterMatching(keys, term), keys)
    ensures forall i :: 0 <= i < |FilterMatching(keys, term)| ==> Matches(FilterMatching(keys, term)[i], term)
    decreases |keys|
  {
    if keys != [] {
      var init := keys[..|keys| - 1];
      var last := keys[|keys| - 1];
      FilterKeepsOrder(init, term);
      var rest := FilterMatching(init, term);
      if Matches(last, term) {
        var r := rest + [last];
        assert r[..|r| - 1] == rest;
        forall i | 0 <= i < |r| ensures Matches(r[i], term) {
          if i < |rest| {
            assert r[i] == rest[i];
          }
        }
      }
    }
  }

  /** The keys shown for a search term: all of them when the term is empty. */
  function Visible(keys: seq<string>, term: string): (r: seq<string>)
    ensures term == "" ==> r == keys
    ensures forall k :: k in r <==> k in keys && Matches(k, term)
  {
    if term == "" then keys else FilterMatching(keys, term)
  }

  /** Every key contains the empty string, so the empty-term shortcut of
      filterKeys agrees with the general filter. */
  lemma {:induction false} FilterEmptyTerm(keys: seq<string>)
    ensures FilterMatching(keys, "") == keys
    decreases |keys|
  {
    if keys != [] {
      var init := keys[..|keys| - 1];
      var last := keys[|keys| - 1];
      FilterEmptyTerm(init);
      assert OccursAt(Lower(last), Lower(""), 0);
      assert keys == init + [last];
    }
  }

  /** Filtering a sorted list leaves it sorted. */
  lemma {:induction false} FilterSorted(keys: seq<string>, term: string)
    requires Sorted(keys)
    ensures Sorted(FilterMatching(keys, term))
    decreases |keys|
  {
    if keys != [] {
      var init := keys[..|keys| - 1];
      var last := keys[|keys| - 1];
      FilterSorted(init, term);
      var rest := FilterMatching(init, term);
      if Matches(last, term) {
        forall i | 0 <= i < |rest| ensures StrLe(rest[i], last) {
          assert rest[i] in multiset(rest);
          assert rest[i] in multiset(init);
          var j :| 0 <= j < |init| && init[j] == rest[i];
          assert keys[j] == init[j];
        }
        var r := rest + [last];
        forall i, j | 0 <= i < j < |r| ensures StrLe(r[i], r[j]) {
          if j < |rest| {
            assert r[i] == rest[i] && r[j] == rest[j];
          }
        }
      }
    }
  }

  /** The filter drops nothing exactly when it returns its input unchanged. */
  lemma {:induction false} FilterKeepsAll(keys: seq<string>, term: string)
    ensures |FilterMatching(keys, term)| == |keys| <==> FilterMatching(keys, term) == keys
    ensures FilterMatching(keys, term) == keys <==> forall i :: 0 <= i < |keys| ==> Matches(keys[i], term)
    decreases |keys|
  {
    if keys != [] {
      var init := keys[..|keys| - 1];
      var last := keys[|keys| - 1];
      FilterKeepsAll(init, term);
      AllMatchSplit(keys, init, term);
      var rest := FilterMatching(init, term);
      if Matches(last, term) {
        KeptLastStep(keys, rest, term);
      } else {
        assert FilterMatching(keys, term) == rest;
        assert |rest| < |keys|;
      }
    }
  }

  /** Every key of a non-empty list matches exactly when every key before
      the last one does and the last one does too. */
  lemma AllMatchSplit(keys: seq<string>, init: seq<string>, term: string)
    requires keys != [] && init == keys[..|keys| - 1]
    ensures (forall i :: 0 <= i < |keys| ==> Matches(keys[i], term)) <==>
      (forall i :: 0 <= i < |init| ==> Matches(init[i], term)) && Matches(keys[|keys| - 1], term)
  {
    if forall i :: 0 <= i < |init| ==> Matches(init[i], term) {
      forall i | 0 <= i < |init| ensures Matches(keys[i], term) {
        assert init[i] == keys[i];
      }
    }
  }

  /** When the last key is kept, the filtered list equals (and is as long
      as) the input exactly when the filtered prefix does for the prefix. */
  lemma KeptLastStep(keys: seq<string>, rest: seq<string>, term: string)
    requires keys != []
    requires rest == FilterMatching(keys[..|keys| - 1], term)
    requires Matches(keys[|keys| - 1], term)
    ensures FilterMatching(keys, term) == rest + [keys[|keys| - 1]]
    ensures FilterMatching(keys, term) == keys <==> rest == keys[..|keys| - 1]
    ensures |FilterMatching(keys, term)| == |keys| <==> |rest| == |keys| - 1
  {
    SplitLast(keys);
    AppendSameLast(rest, keys[..|keys| - 1], keys[|keys| - 1]);
  }

  /** A non-empty list is its prefix followed by its last element. */
  lemma SplitLast<T>(s: seq<T>)
    requires s != []
    ensures s == s[..|s| - 1] + [s[|s| - 1]]
  {
  }

  /** Two lists that end in the same element are equal exactly when what
      comes before it is. */
  lemma AppendSameLast<T>(a: seq<T>, b: seq<T>, x: T)
    ensures a + [x] == b + [x] <==> a == b
  {
    if a + [x] == b + [x] {
      assert a == (a + [x])[..|a|];
    }
  }

  lemma LowerCharIdempotent(c: char)
    ensures LowerChar(LowerChar(c)) == LowerChar(c)
  {
  }

  /** Lower-casing twice is lower-casing once. */
  lemma LowerIdempotent(s: string)
    ensures Lower(Lower(s)) == Lower(s)
  {
    forall i | 0 <= i < |s| ensures Lower(Lower(s))[i] == Lower(s)[i] {
      LowerCharIdempotent(s[i]);
    }
  }

  /** The search is case-insensitive: lower-casing the key or the term
      changes no match. */
  lemma MatchesIgnoresCase(key: string, term: string)
    ensures Matches(Lower(key), term) == Matches(key, term)
    ensures Matches(key, Lower(term)) == Matches(key, term)
  {
    LowerIdempotent(key);
    LowerIdempotent(term);
  }

  /** A search term and its lower-cased form select the same keys. */
  lemma {:induction false} FilterIgnoresTermCase(keys: seq<string>, term: string)
    ensures FilterMatching(keys, Lower(term)) == FilterMatching(keys, term)
    decreases |keys|
  {
    if keys != [] {
      FilterIgnoresTermCase(keys[..|keys| - 1], term);
      MatchesIgnoresCase(keys[|keys| - 1], term);
    }
  }

  /** The visible list is sorted and holds, with their multiplicities,
      exactly the loaded keys that match the term. */
  lemma VisibleSpec(keys: seq<string>, term: string)
    requires Sorted(keys)
    ensures Sorted(Visible(keys, term))
    ensures forall k :: multiset(Visible(keys, term))[k] == if Matches(k, term) then multiset(keys)[k] else 0
  {
    FilterEmptyTerm(keys);
    FilterSorted(keys, term);
  }

  /** The key list of the browser and its search filter. */
  class KeyManager {
    var allKeys: seq<string>
    var filteredKeys: seq<string>
    var currentPattern: string
    var currentSearchTerm: string

    /** The loaded keys are sorted and the filtered list is what the
        current search term selects from them. */
    ghost predicate Valid()
      reads this
    {
      Sorted(allKeys) && filteredKeys == Visible(allKeys, currentSearchTerm)
    }

    constructor()
      ensures Valid()
      ensures allKeys == [] && filteredKeys == []
      ensures currentPattern == "*" && currentSearchTerm == ""
    {
      allKeys := [];
      filteredKeys := [];
      currentPattern := "*";
      currentSearchTerm := "";
    }

    /** Load every key matching `pattern` with SCAN, sort them and re-apply
        the current search term. When a SCAN call fails, the pattern is
        already recorded but the key lists are left as they were. */
    method LoadKeys(pattern: string, replies: seq<ScanReply>)
      returns (outcome: Result<seq<string>, ScanError>, requests: seq<ScanRequest>)
      requires Valid()
      requires exists i :: 0 <= i < |replies| && Terminal(replies[i])
      modifies this
      ensures Valid()
      ensures currentPattern == pattern && currentSearchTerm == old(currentSearchTerm)
      ensures |requests| == FirstTerminal(replies) + 1
      ensures requests[0].cursor == 0
      ensures forall j :: 0 <= j < |requests| ==> requests[j].pattern == pattern && requests[j].count == ScanCount
      ensures forall j :: 0 <= j < |requests| - 1 ==>
        !Terminal(replies[j]) && requests[j + 1].cursor == replies[j].cursor
      ensures outcome.Success? <==> replies[FirstTerminal(replies)].Batch?
      ensures outcome.Failure? ==> allKeys == old(allKeys) && filteredKeys == old(filteredKeys)
      ensures outcome.Success? ==>
        && allKeys == SortKeys(Collected(replies, FirstTerminal(replies) + 1))
        && multiset(allKeys) == multiset(Collected(replies, FirstTerminal(replies) + 1))
        && outcome.value == filteredKeys
    {
      currentPattern := pattern;
      var scanned;
      scanned, requests := Scan(pattern, replies);
      if scanned.Failure? {
        outcome := Failure(scanned.error);
        return;
      }
      allKeys := SortKeys(scanned.value);
      if currentSearchTerm != "" {
        var _ := FilterKeys(currentSearchTerm);
      } else {
        filteredKeys := allKeys;
      }
      outcome := Success(filteredKeys);
    }

    /** Record the search term and keep the loaded keys that contain it,
        ignoring case; the empty term keeps them all. */
    method FilterKeys(term: string) returns (r: seq<string>)
      requires Sorted(allKeys)
      modifies this
      ensures Valid()
      ensures currentSearchTerm == term && filteredKeys == Visible(allKeys, term) && r == filteredKeys
      ensures allKeys == old(allKeys) && currentPattern == old(currentPattern)
    {
      currentSearchTerm := term;
      if term == "" {
        filteredKeys := allKeys;
      } else {
        filteredKeys := FilterMatching(allKeys, term);
      }
      r := filteredKeys;
    }

    /** Drop the search term: every loaded key is shown again. */
    method ClearFilter() returns (r: seq<string>)
      requires Sorted(allKeys)
      modifies this
      ensures Valid()
      ensures currentSearchTerm == "" && filteredKeys == allKeys && r == allKeys
      ensures allKeys == old(allKeys) && currentPattern == old(currentPattern)
    {
      currentSearchTerm := "";
      filteredKeys := allKeys;
      r := filteredKeys;
    }

    method GetAllKeys() returns (r: seq<string>)
      requires Valid()
      ensures r == allKeys && Sorted(r)
    {
      r := allKeys;
    }

    method GetFilteredKeys() returns (r: seq<string>)
      requires Valid()
      ensures r == filteredKeys && Sorted(r)
      ensures forall k :: multiset(r)[k] == if Matches(k, currentSearchTerm) then multiset(allKeys)[k] else 0
    {
      VisibleSpec(allKeys, currentSearchTerm);
      r := filteredKeys;
    }

    method GetCurrentPattern() returns (r: string)
      ensures r == currentPattern
    {
      r := currentPattern;
    }

    method GetCurrentSearchTerm() returns (r: string)
      ensures r == currentSearchTerm
    {
      r := currentSearchTerm;
    }

    /** The two list lengths; the list counts as filtered exactly when the
        search term hides at least one loaded key. */
    method GetCounts() returns (total: nat, filtered: nat, isFiltered: bool)
      requires Valid()
      ensures total == |allKeys| && filtered == |filteredKeys|
      ensures filtered <= total
      ensures isFiltered <==> filtered != total
      ensures !isFiltered <==> forall i :: 0 <= i < |allKeys| ==> Matches(allKeys[i], currentSearchTerm)
    {
      FilterEmptyTerm(allKeys);
      FilterKeepsAll(allKeys, currentSearchTerm);
      total := |allKeys|;
      filtered := |filteredKeys|;
      isFiltered := filtered != total;
    }
  }
}
