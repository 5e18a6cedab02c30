/** `AddRemoveFilter.update_filters`: adding a filter name to, or removing it
    from, the list of filter names of a repository, in place, before the list
    is sent back to the server. */
module Filters {
  import opened Wrappers
  import opened Sequences

  /** Python `list.remove(x)` as a value: the list without its first `x`, or
      `None` (the ValueError) when `x` is absent. */
  function RemoveFirst<T(==)>(s: seq<T>, x: T): (r: Option<seq<T>>)
    ensures r.Some? <==> x in s
    ensures r.Some? ==> |r.value| == |s| - 1
  {
    if s == [] then None
    else if s[0] == x then Some(s[1..])
    else match RemoveFirst(s[1..], x)
      case None => None
      case Some(rest) => Some([s[0]] + rest)
  }

  /** Removal drops exactly the first occurrence and keeps the order of
      everything else. */
  lemma {:induction false} RemoveFirstAt<T>(s: seq<T>, x: T)
    requires x in s
    ensures RemoveFirst(s, x) == Some(s[..IndexOf(s, x)] + s[IndexOf(s, x) + 1..])
  {
    if s[0] == x {
      assert s[..0] + s[1..] == s[1..];
    } else {
      var t := s[1..];
      RemoveFirstAt(t, x);
      var j := IndexOf(t, x);
      ConsSlices(s, j);
    }
  }

  /** Putting the head back on slices of the tail. */
  lemma ConsSlices<T>(s: seq<T>, j: nat)
    requires j + 1 < |s|
    ensures [s[0]] + (s[1..][..j] + s[1..][j + 1..]) == s[..j + 1] + s[j + 2..]
  {
    assert [s[0]] + s[1..][..j] == s[..j + 1];
    assert s[1..][j + 1..] == s[j + 2..];
  }

  /** Removal takes away one `x` and nothing else. */
  lemma {:induction false} RemoveFirstMultiset<T>(s: seq<T>, x: T)
    requires x in s
    ensures multiset(RemoveFirst(s, x).value) + multiset{x} == multiset(s)
  {
    if s[0] != x {
      RemoveFirstMultiset(s[1..], x);
      assert s == [s[0]] + s[1..];
    } else {
      assert s == [x] + s[1..];
    }
  }

  /** Adding a filter the list did not hold and removing it again gives back
      the list. */
  lemma {:induction false} AppendThenRemove<T>(s: seq<T>, x: T)
    requires x !in s
    ensures RemoveFirst(s + [x], x) == Some(s)
  {
    if s != [] {
      assert (s + [x])[1..] == s[1..] + [x];
      AppendThenRemove(s[1..], x);
      assert [s[0]] + s[1..] == s;
    }
  }

  /** A Python list of filter names, changed in place. */
  class NameList {
    var names: seq<string>

    constructor (names: seq<string>)
      ensures this.names == names
    {
      this.names := names;
    }

    /** `list.append(x)`. */
    method Append(x: string)
      modifies this
      ensures names == old(names) + [x]
    {
      names := names + [x];
    }

    /** `list.remove(x)`; `ok` is false where Python raises ValueError, and
        then the list is unchanged. */
    method Remove(x: string) returns (ok: bool)
      modifies this
      ensures ok <==> x in old(names)
      ensures names == if ok then RemoveFirst(old(names), x).value else old(names)
    {
      var r := RemoveFirst(names, x);
      ok := r.Some?;
      if ok {
        names := r.value;
      }
    }
  }

  /** The `repo add_filter` (`addition`) and `repo remove_filter` commands. */
  class AddRemoveFilter {
    const addition: bool

    constructor (addition: bool)
      ensures this.addition == addition
    {
      this.addition := addition;
    }

    /** `update_filters(repo, filters, filter_name)` up to the call that sends
        the list to the server: appends the name, or removes its first
        occurrence; `ok` is false when the name to remove is absent. */
    method UpdateFilters(filters: NameList, filterName: string) returns (ok: bool)
      modifies filters
      ensures addition ==> ok && filters.names == old(filters.names) + [filterName]
      ensures !addition ==> (ok <==> filterName in old(filters.names))
      ensures !addition && ok ==> filters.names == RemoveFirst(old(filters.names), filterName).value
      ensures !addition && !ok ==> filters.names == old(filters.names)
    {
      if addition {
        filters.Append(filterName);
        ok := true;
      } else {
        ok := filters.Remove(filterName);
      }
    }
  }
}
