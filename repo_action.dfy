/** `RepoAction.get_groupid_param`: reading a parameter such as the
    environment out of a repository's group ids, which the server stores as
    strings of the form "<param>:<value>". */
module RepoAction {
  import opened Wrappers
  import opened Text

  /** The search loop over the group ids: the first id in which `key` occurs
      anywhere (Python `gid.find(key) >= 0`), with its first `|key|`
      characters dropped, whether or not `key` was found at the start. */
  function FirstWithKey(groupIds: seq<string>, key: string): (r: Option<string>)
    ensures r.None? <==> forall j :: 0 <= j < |groupIds| ==> !Contains(groupIds[j], key)
    ensures r.Some? ==> exists j :: 0 <= j < |groupIds| && IsFirstMatch(groupIds, key, j)
                                 && r.value == groupIds[j][|key|..]
  {
    if groupIds == [] then None
    else if Find(groupIds[0], key) >= 0 then
      assert IsFirstMatch(groupIds, key, 0);
      Some(groupIds[0][|key|..])
    else
      var r := FirstWithKey(groupIds[1..], key);
      assert forall j :: 1 <= j <= |groupIds[1..]| ==> groupIds[j] == groupIds[1..][j - 1];
      if r.Some? then
        ghost var j :| 0 <= j < |groupIds[1..]| && IsFirstMatch(groupIds[1..], key, j)
                       && r.value == groupIds[1..][j][|key|..];
        assert IsFirstMatch(groupIds, key, j + 1);
        r
      else
        r
  }

  /** Entry `j` is the first group id containing `key`. */
  predicate IsFirstMatch(groupIds: seq<string>, key: string, j: int) {
    && 0 <= j < |groupIds|
    && Contains(groupIds[j], key)
    && |key| <= |groupIds[j]|
    && forall k :: 0 <= k < j ==> !Contains(groupIds[k], key)
  }

  /** `get_groupid_param(repo, param_name)`, given the repository's group
      ids: `None` iff no id contains "<param>:"; otherwise the first id that
      does, cut after as many characters as "<param>:" has. */
  function GetGroupIdParam(groupIds: seq<string>, paramName: string): (r: Option<string>)
    ensures r.None? <==> forall j :: 0 <= j < |groupIds| ==> !Contains(groupIds[j], paramName + ":")
    ensures r.Some? ==> exists j :: 0 <= j < |groupIds| && IsFirstMatch(groupIds, paramName + ":", j)
                                 && r.value == groupIds[j][|paramName| + 1..]
  {
    FirstWithKey(groupIds, paramName + ":")
  }

  /** An id written as "<param>:<value>" gives back exactly `value`: the
      round trip the server's id format relies on. */
  lemma {:induction false} GroupIdParamRoundTrip(paramName: string, value: string, later: seq<string>)
    ensures GetGroupIdParam([paramName + ":" + value] + later, paramName) == Some(value)
  {
    var key := paramName + ":";
    var gid := key + value;
    assert gid[..|key|] == key;
    assert Find(gid, key) == 0;
    assert gid[|key|..] == value;
  }

  /** Earlier ids win: appending ids never changes a parameter already found. */
  lemma {:induction false} GroupIdParamFirstWins(groupIds: seq<string>, later: seq<string>, paramName: string)
    requires GetGroupIdParam(groupIds, paramName).Some?
    ensures GetGroupIdParam(groupIds + later, paramName) == GetGroupIdParam(groupIds, paramName)
  {
    FirstWins(groupIds, later, paramName + ":");
  }

  lemma {:induction false} FirstWins(groupIds: seq<string>, later: seq<string>, key: string)
    requires FirstWithKey(groupIds, key).Some?
    ensures FirstWithKey(groupIds + later, key) == FirstWithKey(groupIds, key)
  {
    assert (groupIds + later)[0] == groupIds[0];
    if Find(groupIds[0], key) < 0 {
      assert (groupIds + later)[1..] == groupIds[1..] + later;
      FirstWins(groupIds[1..], later, key);
    }
  }

  /** The key is looked for anywhere in an id, yet the value is always cut at
      the key's length: the id "xenv:Library" answers the parameter "env"
      with ":Library". */
  lemma MidStringMatch()
    ensures GetGroupIdParam(["xenv:Library"], "env") == Some(":Library")
  {
    var gid, key := "xenv:Library", "env" + ":";
    assert gid[1..1 + |key|] == key;
    assert OccursAt(gid, key, 1);
    assert gid[|key|..] == ":Library";
  }
}
