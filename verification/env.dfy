/** get_env: lookup of `name=value` in the environment array the host passes. */
module Env {
  import opened Wrappers
  import opened CStrings

  /** `entry` starts with `name` immediately followed by `=`: the strncmp
      over the name's length succeeds and the next character is `=`. */
  predicate Binds(name: CString, entry: CString)
  {
    |name| < |entry| && entry[..|name|] == name && entry[|name|] == '='
  }

  /** The scan over the NULL-terminated array: the value of the first
      binding of `name`, or NULL. */
  function Lookup(name: CString, entries: seq<CString>): (r: Option<CString>)
    ensures r.None? <==> forall i :: 0 <= i < |entries| ==> !Binds(name, entries[i])
    ensures r.Some? ==> exists i :: 0 <= i < |entries| && entries[i] == name + "=" + r.value
                           && forall j :: 0 <= j < i ==> !Binds(name, entries[j])
  {
    if |entries| == 0 then None
    else if Binds(name, entries[0]) then
      var e := entries[0];
      assert e == e[..|name|] + "=" + e[|name| + 1..];
      Some(e[|name| + 1..])
    else
      var r := Lookup(name, entries[1..]);
      assert forall i :: 1 <= i < |entries| ==> entries[i] == entries[1..][i - 1];
      r
  }

  /** get_env: a NULL environment array binds nothing. */
  function GetEnv(name: CString, envp: Option<seq<CString>>): (r: Option<CString>)
    ensures envp.None? ==> r.None?
    ensures envp.Some? ==> (r.None? <==> forall i :: 0 <= i < |envp.value| ==> !Binds(name, envp.value[i]))
    ensures r.Some? ==> exists i :: 0 <= i < |envp.value| && envp.value[i] == name + "=" + r.value
                           && forall j :: 0 <= j < i ==> !Binds(name, envp.value[j])
  {
    match envp
    case None => None
    case Some(entries) => Lookup(name, entries)
  }

  /** An entry of the form `name=value` binds `name`, and the value read back
      is the text after the first `=` that follows the name. */
  lemma BindingRoundTrip(name: CString, value: CString)
    ensures Binds(name, name + "=" + value)
    ensures GetEnv(name, Some([name + "=" + value])) == Some(value)
  {
    var e := name + "=" + value;
    assert e[..|name|] == name;
    assert e[|name| + 1..] == value;
  }
}
