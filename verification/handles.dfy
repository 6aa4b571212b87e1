/**
 * Pure functions over a newest-first sequence of weak activity handles.
 * A handle is represented by the identity of its referent; whether the
 * referent is still reachable (WeakReference.get() != null) is given by an
 * explicit set `alive`.
 */
module Handles {
  import opened Wrappers

  /** `s` holds no element twice. */
  ghost predicate Distinct<T(!new)>(s: seq<T>)
  {
    forall i, j :: 0 <= i < j < |s| ==> s[i] != s[j]
  }

  /** `r` can be obtained from `s` by deleting elements, keeping the rest in order. */
  ghost predicate IsSubsequence<T(!new)>(r: seq<T>, s: seq<T>)
    decreases |s|
  {
    r == [] || (s != [] && ((r[0] == s[0] && IsSubsequence(r[1..], s[1..])) || IsSubsequence(r, s[1..])))
  }

  /** The handles of `s` whose referent is alive, in stored order. */
  function LiveOnly<T(!new)>(s: seq<T>, alive: set<T>): (r: seq<T>)
    ensures |r| <= |s|
    ensures forall x :: x in r <==> x in s && x in alive
  {
    if s == [] then []
    else (if s[0] in alive then [s[0]] else []) + LiveOnly(s[1..], alive)
  }

  /**
   * The exit sweep: walk the sequence and drop every handle that is stale
   * or whose referent is the exiting activity `a`.
   */
  function Sweep<T(!new)>(s: seq<T>, alive: set<T>, a: T): (r: seq<T>)
    ensures |r| <= |s|
    ensures forall x :: x in r <==> x in s && x in alive && x != a
  {
    if s == [] then []
    else (if s[0] !in alive || s[0] == a then [] else [s[0]]) + Sweep(s[1..], alive, a)
  }

  /** The elements of `s` in the opposite order. */
  function Reverse<T(!new)>(s: seq<T>): (r: seq<T>)
    ensures |r| == |s|
    ensures forall i :: 0 <= i < |s| ==> r[i] == s[|s| - 1 - i]
  {
    if s == [] then [] else Reverse(s[1..]) + [s[0]]
  }

  /** The list a getter returns: the live referents, earliest entry first. */
  function OldestFirstLive<T(!new)>(s: seq<T>, alive: set<T>): (r: seq<T>)
  {
    Reverse(LiveOnly(s, alive))
  }

  /** The referent of the newest handle (index 0), or None if absent or stale. */
  function NewestEnd<T(!new)>(s: seq<T>, alive: set<T>): Option<T>
  {
    if s != [] && s[0] in alive then Some(s[0]) else None
  }

  /** The referent of the oldest handle (last index), or None if absent or stale. */
  function OldestEnd<T(!new)>(s: seq<T>, alive: set<T>): Option<T>
  {
    if s != [] && s[|s| - 1] in alive then Some(s[|s| - 1]) else None
  }

  /** Entering `xs` one after another, each prepended at index 0. */
  function EnterAll<T(!new)>(s: seq<T>, xs: seq<T>): seq<T>
    decreases |xs|
  {
    if xs == [] then s else EnterAll([xs[0]] + s, xs[1..])
  }

  // ---------------------------------------------------------------------
  // The filter

  /** Filtering distributes over concatenation. */
  lemma {:induction false} LiveOnlyAppend<T(!new)>(s: seq<T>, t: seq<T>, alive: set<T>)
    ensures LiveOnly(s + t, alive) == LiveOnly(s, alive) + LiveOnly(t, alive)
  {
    if s == [] {
      assert s + t == t;
    } else {
      assert (s + t)[1..] == s[1..] + t;
      LiveOnlyAppend(s[1..], t, alive);
    }
  }

  /** The survivors keep their relative order. */
  lemma {:induction false} LiveOnlyIsSubsequence<T(!new)>(s: seq<T>, alive: set<T>)
    ensures IsSubsequence(LiveOnly(s, alive), s)
  {
    if s != [] {
      LiveOnlyIsSubsequence(s[1..], alive);
      var r := LiveOnly(s, alive);
      if s[0] in alive {
        assert r[0] == s[0] && r[1..] == LiveOnly(s[1..], alive);
      } else {
        assert r == LiveOnly(s[1..], alive);
      }
    }
  }

  /** Each live referent keeps all its occurrences, each stale one loses all of them. */
  lemma {:induction false} LiveOnlyMultiplicity<T(!new)>(s: seq<T>, alive: set<T>, x: T)
    ensures multiset(LiveOnly(s, alive))[x] == if x in alive then multiset(s)[x] else 0
  {
    if s != [] {
      LiveOnlyMultiplicity(s[1..], alive, x);
      assert s == [s[0]] + s[1..];
      assert multiset(s) == multiset{s[0]} + multiset(s[1..]);
    }
  }

  /** Nothing is dropped exactly when every handle is live. */
  lemma {:induction false} LiveOnlyKeepsAll<T(!new)>(s: seq<T>, alive: set<T>)
    ensures |LiveOnly(s, alive)| == |s| <==> forall x :: x in s ==> x in alive
  {
    if s != [] {
      LiveOnlyKeepsAll(s[1..], alive);
      assert forall x :: x in s <==> x == s[0] || x in s[1..];
    }
  }

  /** Filtering never introduces a repeated handle. */
  lemma {:induction false} LiveOnlyDistinct<T(!new)>(s: seq<T>, alive: set<T>)
    requires Distinct(s)
    ensures Distinct(LiveOnly(s, alive))
  {
    if s != [] {
      assert Distinct(s[1..]) by {
        forall i, j | 0 <= i < j < |s[1..]| ensures s[1..][i] != s[1..][j] {
          assert s[1..][i] == s[i + 1] && s[1..][j] == s[j + 1];
        }
      }
      LiveOnlyDistinct(s[1..], alive);
      var t := LiveOnly(s[1..], alive);
      if s[0] in alive {
        assert s[0] !in s[1..] by {
          forall j | 0 <= j < |s[1..]| ensures s[1..][j] != s[0] {
            assert s[1..][j] == s[j + 1];
          }
        }
        forall i, j | 0 <= i < j < |[s[0]] + t| ensures ([s[0]] + t)[i] != ([s[0]] + t)[j] {
          if i == 0 {
            assert ([s[0]] + t)[j] == t[j - 1] && t[j - 1] in t;
          } else {
            assert ([s[0]] + t)[i] == t[i - 1] && ([s[0]] + t)[j] == t[j - 1];
          }
        }
      }
    }
  }

  /** An entry keeps a sequence without repeats only if the activity was not in it yet. */
  lemma PrependDistinct<T(!new)>(s: seq<T>, a: T)
    requires Distinct(s)
    ensures Distinct([a] + s) <==> a !in s
  {
    if a !in s {
      forall i, j | 0 <= i < j < |[a] + s| ensures ([a] + s)[i] != ([a] + s)[j] {
        assert ([a] + s)[j] == s[j - 1];
      }
    } else {
      var j :| 0 <= j < |s| && s[j] == a;
      assert ([a] + s)[0] == a && ([a] + s)[j + 1] == a;
    }
  }

  // ---------------------------------------------------------------------
  // The sweep

  /** The sweep is the live filter with the exiting activity counted as dead. */
  lemma {:induction false} SweepIsLiveOnly<T(!new)>(s: seq<T>, alive: set<T>, a: T)
    ensures Sweep(s, alive, a) == LiveOnly(s, alive - {a})
  {
    if s != [] {
      SweepIsLiveOnly(s[1..], alive, a);
    }
  }

  /**
   * What the exit sweep leaves: exactly the live handles other than `a`,
   * in their old relative order, each with its old multiplicity; no handle
   * of `a` and no stale handle remains; nothing new is added and a sequence
   * without repeats stays without repeats.
   */
  lemma SweepProperties<T(!new)>(s: seq<T>, alive: set<T>, a: T)
    ensures var r := Sweep(s, alive, a);
      && a !in r
      && (forall x :: x in r ==> x in alive)
      && IsSubsequence(r, s)
      && (forall x :: multiset(r)[x] == if x in alive && x != a then multiset(s)[x] else 0)
      && (Distinct(s) ==> Distinct(r))
      && (|r| == 0 <==> forall x :: x in s ==> x !in alive || x == a)
  {
    SweepIsLiveOnly(s, alive, a);
    LiveOnlyIsSubsequence(s, alive - {a});
    forall x ensures multiset(Sweep(s, alive, a))[x] == if x in alive && x != a then multiset(s)[x] else 0 {
      LiveOnlyMultiplicity(s, alive - {a}, x);
    }
    if Distinct(s) {
      LiveOnlyDistinct(s, alive - {a});
    }
  }

  /** The sweep, like the filter, can be computed one handle at a time. */
  lemma SweepStep<T(!new)>(s: seq<T>, i: nat, alive: set<T>, a: T)
    requires i < |s|
    ensures Sweep(s[..i + 1], alive, a)
         == Sweep(s[..i], alive, a) + (if s[i] !in alive || s[i] == a then [] else [s[i]])
  {
    assert s[..i + 1] == s[..i] + [s[i]];
    SweepIsLiveOnly(s[..i + 1], alive, a);
    SweepIsLiveOnly(s[..i], alive, a);
    SweepIsLiveOnly([s[i]], alive, a);
    LiveOnlyAppend(s[..i], [s[i]], alive - {a});
  }

  /** The filter can be computed one handle at a time, front to back. */
  lemma LiveOnlyStep<T(!new)>(s: seq<T>, i: nat, alive: set<T>)
    requires i < |s|
    ensures LiveOnly(s[..i + 1], alive) == LiveOnly(s[..i], alive) + (if s[i] in alive then [s[i]] else [])
  {
    assert s[..i + 1] == s[..i] + [s[i]];
    LiveOnlyAppend(s[..i], [s[i]], alive);
  }

  // ---------------------------------------------------------------------
  // Reversal and the getters

  /** Reversing twice gives the sequence back. */
  lemma ReverseReverse<T(!new)>(s: seq<T>)
    ensures Reverse(Reverse(s)) == s
  {
  }

  /** Reversal keeps the elements. */
  lemma ReverseMembers<T(!new)>(s: seq<T>)
    ensures forall x :: x in Reverse(s) <==> x in s
  {
    forall x | x in s ensures x in Reverse(s) {
      var i :| 0 <= i < |s| && s[i] == x;
      assert Reverse(s)[|s| - 1 - i] == x;
    }
  }

  /**
   * The getter's list holds exactly the live referents of the store, in
   * reverse stored order (earliest entry first), never more of them than
   * the store has handles, and nothing when the store is empty.
   */
  lemma OldestFirstLiveProperties<T(!new)>(s: seq<T>, alive: set<T>)
    ensures var r := OldestFirstLive(s, alive);
      && |r| <= |s|
      && (s == [] ==> r == [])
      && (forall x :: x in r <==> x in s && x in alive)
      && |r| == |LiveOnly(s, alive)|
      && (forall i :: 0 <= i < |r| ==> r[i] == LiveOnly(s, alive)[|r| - 1 - i])
  {
    ReverseMembers(LiveOnly(s, alive));
  }

  /** Entering `xs` in order puts them in front, newest first. */
  lemma {:induction false} EnterAllPrepends<T(!new)>(s: seq<T>, xs: seq<T>)
    ensures EnterAll(s, xs) == Reverse(xs) + s
    decreases |xs|
  {
    if xs != [] {
      EnterAllPrepends([xs[0]] + s, xs[1..]);
      assert Reverse(xs) == Reverse(xs[1..]) + [xs[0]];
    }
  }

  /**
   * After entrants `xs` arrive one by one into an empty sequence with no
   * exit in between, and all are still alive: the getter lists them in
   * arrival order, the "last" end is the latest entrant and the "first"
   * end the earliest.
   */
  lemma EntriesFromEmpty<T(!new)>(xs: seq<T>, alive: set<T>)
    requires forall x :: x in xs ==> x in alive
    ensures OldestFirstLive(EnterAll([], xs), alive) == xs
    ensures xs != [] ==> NewestEnd(EnterAll([], xs), alive) == Some(xs[|xs| - 1])
    ensures xs != [] ==> OldestEnd(EnterAll([], xs), alive) == Some(xs[0])
  {
    EnterAllPrepends([], xs);
    var s := Reverse(xs);
    assert EnterAll([], xs) == s;
    LiveOnlyKeepsAll(s, alive);
    ReverseMembers(xs);
    assert LiveOnly(s, alive) == s by {
      LiveOnlyIsSubsequence(s, alive);
      SubsequenceOfSameLength(LiveOnly(s, alive), s);
    }
    ReverseReverse(xs);
  }

  /** A subsequence as long as the sequence is the sequence itself. */
  lemma {:induction false} SubsequenceOfSameLength<T(!new)>(r: seq<T>, s: seq<T>)
    requires IsSubsequence(r, s) && |r| == |s|
    ensures r == s
  {
    if r != [] {
      if r[0] == s[0] && IsSubsequence(r[1..], s[1..]) {
        SubsequenceOfSameLength(r[1..], s[1..]);
        assert r == [r[0]] + r[1..];
        assert s == [s[0]] + s[1..];
      } else {
        SubsequenceNoLonger(r, s[1..]);
        assert false;
      }
    }
  }

  /** A subsequence is never longer than the sequence. */
  lemma {:induction false} SubsequenceNoLonger<T(!new)>(r: seq<T>, s: seq<T>)
    requires IsSubsequence(r, s)
    ensures |r| <= |s|
    decreases |s|
  {
    if r != [] {
      if r[0] == s[0] && IsSubsequence(r[1..], s[1..]) {
        SubsequenceNoLonger(r[1..], s[1..]);
      } else {
        SubsequenceNoLonger(r, s[1..]);
      }
    }
  }

  /**
   * The two ends agree with the getter's list when their handle is live:
   * the "last" end is the list's final element and the "first" end its
   * first element. An end that is absent means the store is empty or that
   * end's handle is stale; no other entry is tried instead.
   */
  lemma EndsAgreeWithList<T(!new)>(s: seq<T>, alive: set<T>)
    ensures var r := OldestFirstLive(s, alive);
      && (NewestEnd(s, alive).Some? ==> r != [] && r[|r| - 1] == NewestEnd(s, alive).value)
      && (OldestEnd(s, alive).Some? ==> r != [] && r[0] == OldestEnd(s, alive).value)
      && (NewestEnd(s, alive).None? <==> s == [] || s[0] !in alive)
      && (OldestEnd(s, alive).None? <==> s == [] || s[|s| - 1] !in alive)
  {
    var l := LiveOnly(s, alive);
    if s != [] && s[0] in alive {
      assert l[0] == s[0];
    }
    if s != [] && s[|s| - 1] in alive {
      assert s == s[..|s| - 1] + [s[|s| - 1]];
      LiveOnlyAppend(s[..|s| - 1], [s[|s| - 1]], alive);
      assert l[|l| - 1] == s[|s| - 1];
    }
  }

  /**
   * A stale handle at either end is not skipped: the end reads absent even
   * when a live entry sits behind it, which the list getter still returns.
   */
  lemma StaleEndIsNotSkipped<T(!new)>(s: seq<T>, alive: set<T>, i: nat)
    requires i < |s| && s[i] in alive
    ensures s[0] !in alive ==> NewestEnd(s, alive) == None && s[i] in OldestFirstLive(s, alive)
    ensures s[|s| - 1] !in alive ==> OldestEnd(s, alive) == None && s[i] in OldestFirstLive(s, alive)
  {
    OldestFirstLiveProperties(s, alive);
  }
}
