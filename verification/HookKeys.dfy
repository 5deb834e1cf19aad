/** Hook keys: a symbol name, optionally qualified as "module!symbol". */
module HookKeys {
  import opened Prelude

  datatype Target = Target(filter: Option<string>, name: string)

  function IndexOf(s: string, c: char): (i: nat)
    ensures i <= |s|
    ensures i < |s| ==> s[i] == c
    ensures c !in s[..i]
  {
    if s == [] || s[0] == c then 0
    else
      assert forall k | 1 <= k <= |s| :: s[..k] == [s[0]] + s[1..][..k - 1];
      1 + IndexOf(s[1..], c)
  }

  /** The first '!' separates the module filter from the name. */
  function ParseTarget(key: string): Target {
    var separator := IndexOf(key, '!');
    if separator == |key| then Target(None, key)
    else Target(Some(key[..separator]), key[separator + 1..])
  }

  /** An unqualified key names its symbol; a qualified one splits back into its parts
      whatever the symbol name contains, if the module name has no '!'. */
  lemma ParseTargetRoundTrip(m: string, name: string)
    ensures '!' !in name ==> ParseTarget(name) == Target(None, name)
    ensures '!' !in m ==> ParseTarget(m + "!" + name) == Target(Some(m), name)
  {
    var key := m + "!" + name;
    var i := IndexOf(key, '!');
    if '!' !in m {
      assert key[|m|] == '!';
      assert forall k | 0 <= k < |m| :: key[k] == m[k] && m[k] in m;
      assert i <= |m| by {
        assert forall k | 0 <= k < i :: key[k] in key[..i];
      }
      assert key[..|m|] == m && key[|m| + 1..] == name;
    }
  }
}
