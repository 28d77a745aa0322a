/**
  The attribute filter of the jailed subsystem: before attributes are applied,
  the entry named "permissions" is removed, and the listeners that observe the
  change see only what is left. Attribute values are opaque here.
 */
module Attributes {

  /** The one attribute the storage cannot apply. */
  const Permissions: string := "permissions"

  /** The attributes that are passed on: every entry except "permissions". */
  function FilterAttributes<V>(attrs: map<string, V>): (r: map<string, V>)
    ensures Permissions !in r
    ensures forall k :: k in attrs && k != Permissions ==> k in r && r[k] == attrs[k]
    ensures forall k :: k in r ==> k in attrs
  {
    attrs - {Permissions}
  }

  /** What a listener is told when attributes are set on a path. */
  datatype Modification<V> = Modification(path: string, attrs: map<string, V>)

  /** Setting attributes on a path: the listener is told about the same path and
      about the filtered attributes, never about "permissions". */
  function SetAttributes<V>(path: string, attrs: map<string, V>): (n: Modification<V>)
    ensures n.path == path
    ensures Permissions !in n.attrs
    ensures forall k :: k in n.attrs <==> k in attrs && k != Permissions
    ensures forall k :: k in n.attrs ==> n.attrs[k] == attrs[k]
  {
    Modification(path, FilterAttributes(attrs))
  }

  // ---------------------------------------------------------------------------
  // Lemmas

  /** Filtering twice filters nothing more. */
  lemma FilterIdempotent<V>(attrs: map<string, V>)
    ensures FilterAttributes(FilterAttributes(attrs)) == FilterAttributes(attrs)
  {
  }

  /** The filter keeps a map that has no "permissions" entry as it is. */
  lemma FilterKeepsUnrestricted<V>(attrs: map<string, V>)
    requires Permissions !in attrs
    ensures FilterAttributes(attrs) == attrs
  {
  }

  /** Whatever "permissions" is set to, listeners see the same thing. */
  lemma PermissionsIgnored<V>(attrs: map<string, V>, v: V)
    ensures FilterAttributes(attrs[Permissions := v]) == FilterAttributes(attrs)
  {
  }

  /** Any other attribute reaches the listener with the value it was set to. */
  lemma OtherAttributePassed<V>(attrs: map<string, V>, k: string, v: V)
    requires k != Permissions
    ensures FilterAttributes(attrs[k := v]) == FilterAttributes(attrs)[k := v]
  {
  }

  /** The suite's example: "basic" is kept with its value and "permissions" is
      dropped with its value. */
  lemma KeepsBasicDropsPermissions()
    ensures var n := SetAttributes(".", map["basic" := "keep me", "permissions" := "drop me"]);
      && n.attrs.Keys == {"basic"}
      && "keep me" in n.attrs.Values
      && "drop me" !in n.attrs.Values
  {
    var attrs := map["basic" := "keep me", "permissions" := "drop me"];
    var n := SetAttributes(".", attrs);
    assert "basic" != Permissions;
    assert n.attrs == map["basic" := "keep me"];
  }
}
