/** `Selection`: the list of repository urls chosen during discovery, grown
    in place by `add_selection`, which appends each url not already in it. */
module Selections {
  import opened Sequences

  /** No url appears twice. */
  predicate NoDuplicates(s: seq<string>) {
    forall i, j :: 0 <= i < j < |s| ==> s[i] != s[j]
  }

  /** What `add_selection(urls)` makes of the list `s`: the urls are visited in
      order and each one not yet present is appended. */
  function AddAll(s: seq<string>, urls: seq<string>): (r: seq<string>)
    ensures |s| <= |r| <= |s| + |urls|
    decreases urls
  {
    if urls == [] then s
    else
      var next := if urls[0] in s then s else s + [urls[0]];
      AddAll(next, urls[1..])
  }

  /** `add_selection` keeps the list as a prefix, ends with exactly the urls
      of the list and of `urls`, and never brings a url in twice. */
  lemma {:induction false} AddAllSpec(s: seq<string>, urls: seq<string>)
    ensures var r := AddAll(s, urls);
      && r[..|s|] == s
      && (forall x :: x in r <==> x in s || x in urls)
      && (NoDuplicates(s) ==> NoDuplicates(r))
    decreases urls
  {
    if urls != [] {
      var next := if urls[0] in s then s else s + [urls[0]];
      AddAllSpec(next, urls[1..]);
      var r := AddAll(s, urls);
      assert r == AddAll(next, urls[1..]);
      assert r[..|s|] == next[..|s|];
      assert forall x :: x in urls <==> x == urls[0] || x in urls[1..];
      if NoDuplicates(s) && urls[0] !in s {
        assert NoDuplicates(next) by {
          forall i, j | 0 <= i < j < |next| ensures next[i] != next[j] {
            if j == |s| {
              assert next[i] == s[i];
            }
          }
        }
      }
    }
  }

  /** `add_selection` appends the new urls in the order of their first
      occurrence in `urls`: every appended url comes from `urls` and was not
      in the list, and of two appended urls the earlier one occurs first
      earlier in `urls`. */
  lemma {:induction false} AddAllOrder(s: seq<string>, urls: seq<string>)
    ensures var r := AddAll(s, urls);
      && (forall i :: |s| <= i < |r| ==> r[i] in urls && r[i] !in s)
      && (forall i, j :: |s| <= i < j < |r| ==> IndexOf(urls, r[i]) < IndexOf(urls, r[j]))
    decreases urls
  {
    if urls != [] {
      var u, tail := urls[0], urls[1..];
      var next := if u in s then s else s + [u];
      var r := AddAll(s, urls);
      assert r == AddAll(next, tail);
      AddAllOrder(next, tail);
      AddAllSpec(next, tail);
      assert forall x :: x in tail ==> x in urls;
      forall i | |next| <= i < |r|
        ensures r[i] in urls && r[i] !in s && r[i] != u
        ensures IndexOf(urls, r[i]) == 1 + IndexOf(tail, r[i])
      {
        assert r[i] !in next;
        IndexOfTail(urls, r[i]);
      }
      if u !in s {
        assert r[|s|] == next[|s|] == u;
      }
    }
  }

  /** Adding urls that are all present already changes nothing. */
  lemma {:induction false} AddAllPresent(s: seq<string>, urls: seq<string>)
    requires forall x :: x in urls ==> x in s
    ensures AddAll(s, urls) == s
  {
    if urls != [] {
      AddAllPresent(s, urls[1..]);
    }
  }

  /** `add_selection` is idempotent: repeating it with the same urls leaves
      the list as the first call left it. */
  lemma AddAllIdempotent(s: seq<string>, urls: seq<string>)
    ensures AddAll(AddAll(s, urls), urls) == AddAll(s, urls)
  {
    AddAllSpec(s, urls);
    AddAllPresent(AddAll(s, urls), urls);
  }

  /** Distinct urls none of which is present are appended as they are, in
      their order. */
  lemma {:induction false} AddAllFresh(s: seq<string>, urls: seq<string>)
    requires NoDuplicates(urls)
    requires forall x :: x in urls ==> x !in s
    ensures AddAll(s, urls) == s + urls
    decreases urls
  {
    if urls != [] {
      var x, rest := urls[0], urls[1..];
      assert (s + [x]) + rest == s + urls by {
        assert urls == [x] + rest;
      }
      assert x !in s;
      assert AddAll(s, urls) == AddAll(s + [x], rest);
      assert NoDuplicates(rest) by {
        forall i, j | 0 <= i < j < |rest| ensures rest[i] != rest[j] {
          assert rest[i] == urls[i + 1] && rest[j] == urls[j + 1];
        }
      }
      assert forall y :: y in rest ==> y !in s + [x] by {
        forall y | y in rest ensures y !in s + [x] {
          var k :| 0 <= k < |rest| && rest[k] == y;
          assert urls[k + 1] == y && urls[0] == x;
        }
      }
      AddAllFresh(s + [x], rest);
    }
  }

  /** The list a `Selection` holds, changed in place. */
  class Selection {
    var items: seq<string>

    /** `Selection()`: an empty list. */
    constructor ()
      ensures items == []
    {
      items := [];
    }

    /** `add_selection(urls)`. */
    method AddSelection(urls: seq<string>)
      modifies this
      ensures items == AddAll(old(items), urls)
    {
      for i := 0 to |urls|
        invariant AddAll(items, urls[i..]) == AddAll(old(items), urls)
      {
        assert urls[i..][1..] == urls[i + 1..];
        if urls[i] !in items {
          items := items + [urls[i]];
        }
      }
    }
  }
}
