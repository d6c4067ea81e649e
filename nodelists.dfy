/**
 * Reference functions over ordered node lists (`host:port` strings), used to
 * specify how the node manager moves entries between its lists.
 */
module NodeLists {

  /** The entries of s on which probe answers `want`, in their order in s. */
  function Select(s: seq<string>, probe: string -> bool, want: bool): (r: seq<string>)
    ensures |r| <= |s|
  {
    if s == [] then []
    else (if probe(s[0]) == want then [s[0]] else []) + Select(s[1..], probe, want)
  }

  /** s without its first occurrence of x; s itself when x does not occur. */
  function RemoveFirst(s: seq<string>, x: string): seq<string>
  {
    if s == [] then []
    else if s[0] == x then s[1..]
    else [s[0]] + RemoveFirst(s[1..], x)
  }

  /** An entry is selected exactly when it occurs in s and the probe gives `want` on it. */
  lemma {:induction false} SelectMembers(s: seq<string>, probe: string -> bool, want: bool)
    ensures forall x :: x in Select(s, probe, want) <==> x in s && probe(x) == want
  {
    if s != [] {
      SelectMembers(s[1..], probe, want);
      assert s == [s[0]] + s[1..];
    }
  }

  /** Selecting from a concatenation selects from each part in turn. */
  lemma {:induction false} SelectAppend(a: seq<string>, b: seq<string>, probe: string -> bool, want: bool)
    ensures Select(a + b, probe, want) == Select(a, probe, want) + Select(b, probe, want)
  {
    if a != [] {
      assert (a + b)[1..] == a[1..] + b;
      SelectAppend(a[1..], b, probe, want);
    } else {
      assert a + b == b;
    }
  }

  /** The two selections split s: together they hold every entry, duplicates included. */
  lemma {:induction false} SelectPartition(s: seq<string>, probe: string -> bool)
    ensures multiset(Select(s, probe, true)) + multiset(Select(s, probe, false)) == multiset(s)
  {
    if s != [] {
      SelectPartition(s[1..], probe);
      assert s == [s[0]] + s[1..];
    }
  }

  /** Selecting again with the same answer changes nothing; with the other answer leaves nothing. */
  lemma {:induction false} SelectTwice(s: seq<string>, probe: string -> bool, want: bool)
    ensures Select(Select(s, probe, want), probe, want) == Select(s, probe, want)
    ensures Select(Select(s, probe, want), probe, !want) == []
  {
    if s != [] {
      var r := Select(s[1..], probe, want);
      SelectTwice(s[1..], probe, want);
      if probe(s[0]) == want {
        var t := [s[0]] + r;
        assert Select(s, probe, want) == t;
        assert t[0] == s[0] && t[1..] == r;
      } else {
        assert Select(s, probe, want) == r;
      }
    }
  }

  /** When the first occurrence of x is at i, removing it splices s around i. */
  lemma {:induction false} RemoveFirstAt(s: seq<string>, x: string, i: nat)
    requires i < |s| && s[i] == x
    requires forall k :: 0 <= k < i ==> s[k] != x
    ensures RemoveFirst(s, x) == s[..i] + s[i + 1..]
  {
    if i > 0 {
      RemoveFirstAt(s[1..], x, i - 1);
      assert s[1..][..i - 1] == s[1..i];
      assert s[1..][i..] == s[i + 1..];
      assert s[..i] == [s[0]] + s[1..i];
    }
  }

  /** A removal that skips a prefix free of x only acts on the rest. */
  lemma {:induction false} RemoveFirstAfter(a: seq<string>, b: seq<string>, x: string)
    requires x !in a
    ensures RemoveFirst(a + b, x) == a + RemoveFirst(b, x)
  {
    if a != [] {
      assert (a + b)[1..] == a[1..] + b;
      RemoveFirstAfter(a[1..], b, x);
    } else {
      assert a + b == b;
    }
  }

  /**
   * Removing the first occurrence takes exactly one copy of x out of the
   * list (none when x is absent) and keeps the order of everything else.
   */
  lemma {:induction false} RemoveFirstMultiset(s: seq<string>, x: string)
    ensures multiset(RemoveFirst(s, x)) == multiset(s) - multiset{x}
    ensures x in s ==> |RemoveFirst(s, x)| == |s| - 1
    ensures x !in s ==> RemoveFirst(s, x) == s
  {
    if s != [] {
      RemoveFirstMultiset(s[1..], x);
      assert s == [s[0]] + s[1..];
      if s[0] != x {
        assert multiset(RemoveFirst(s, x)) == multiset{s[0]} + multiset(RemoveFirst(s[1..], x));
      }
    }
  }

  /**
   * One step of a pass over the snapshot l: after l[..k] has been handled,
   * handling l[k] appends it to the selection when the probe gives `want`,
   * and otherwise removing its first occurrence from the working list
   * (selection so far, then the unhandled rest) takes exactly l[k] out.
   */
  lemma SelectStep(l: seq<string>, k: nat, probe: string -> bool, want: bool)
    requires k < |l|
    ensures Select(l[..k + 1], probe, want) ==
      Select(l[..k], probe, want) + (if probe(l[k]) == want then [l[k]] else [])
    ensures probe(l[k]) == want ==>
      Select(l[..k], probe, want) + l[k..] == Select(l[..k + 1], probe, want) + l[k + 1..]
    ensures probe(l[k]) != want ==>
      RemoveFirst(Select(l[..k], probe, want) + l[k..], l[k]) == Select(l[..k], probe, want) + l[k + 1..]
  {
    var kept := Select(l[..k], probe, want);
    assert l[..k + 1] == l[..k] + [l[k]];
    assert l[k..] == [l[k]] + l[k + 1..];
    SelectAppend(l[..k], [l[k]], probe, want);
    if probe(l[k]) != want {
      SelectMembers(l[..k], probe, want);
      RemoveFirstAfter(kept, l[k..], l[k]);
    }
  }

  /**
   * The state of a pass after handling snapshot entry l[k]: the working
   * list keeps the entries answering `want` followed by the unhandled rest,
   * and the other list has gained, after its initial contents, the entries
   * answering the opposite, in snapshot order.
   */
  lemma PassStep(l: seq<string>, k: nat, probe: string -> bool, want: bool,
                 working: seq<string>, other: seq<string>, initial: seq<string>)
    requires k < |l|
    requires working == Select(l[..k], probe, want) + l[k..]
    requires other == initial + Select(l[..k], probe, !want)
    ensures probe(l[k]) != want ==>
      l[k] in working &&
      RemoveFirst(working, l[k]) == Select(l[..k + 1], probe, want) + l[k + 1..] &&
      other + [l[k]] == initial + Select(l[..k + 1], probe, !want)
    ensures probe(l[k]) == want ==>
      working == Select(l[..k + 1], probe, want) + l[k + 1..] &&
      other == initial + Select(l[..k + 1], probe, !want)
  {
    SelectStep(l, k, probe, want);
    SelectStep(l, k, probe, !want);
    assert l[k..][0] == l[k];
  }

  /**
   * One health cycle with the same probe answers in both passes: the
   * available list becomes the reachable entries of the old available list
   * followed by those of the old broken list, the broken list the
   * unreachable entries of the old broken list followed by those of the old
   * available list; afterwards every available entry is reachable and every
   * broken one is not.
   */
  lemma SteadyProbeCycle(available: seq<string>, broken: seq<string>, probe: string -> bool)
    ensures var demoted := Select(available, probe, false);
      Select(available, probe, true) + Select(broken + demoted, probe, true) ==
        Select(available, probe, true) + Select(broken, probe, true) &&
      Select(broken + demoted, probe, false) ==
        Select(broken, probe, false) + Select(available, probe, false)
    ensures forall x :: x in Select(available, probe, true) + Select(broken, probe, true) ==> probe(x)
    ensures forall x :: x in Select(broken, probe, false) + Select(available, probe, false) ==> !probe(x)
  {
    var demoted := Select(available, probe, false);
    SelectAppend(broken, demoted, probe, true);
    SelectAppend(broken, demoted, probe, false);
    SelectTwice(available, probe, false);
    SelectMembers(available, probe, true);
    SelectMembers(available, probe, false);
    SelectMembers(broken, probe, true);
    SelectMembers(broken, probe, false);
  }

  /**
   * An entry the first pass finds unreachable is probed again by the second
   * pass, and is available at the end of the cycle if that probe succeeds.
   */
  lemma DemotedEntryReprobed(available: seq<string>, broken: seq<string>,
                             firstPass: string -> bool, secondPass: string -> bool, x: string)
    requires x in available && !firstPass(x) && secondPass(x)
    ensures x in Select(available, firstPass, true) +
      Select(broken + Select(available, firstPass, false), secondPass, true)
  {
    SelectMembers(available, firstPass, false);
    SelectMembers(broken + Select(available, firstPass, false), secondPass, true);
  }
}
