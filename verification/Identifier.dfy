/** The identifiers an export writes: name-based, from the kind and the id of an entity. */
module Identifiers {
  import opened Sha1Spec
  import D = Decimals
  import U = Uuids

  /** 4183b33a-de9e-4074-bdb1-e8d33c7cc35a, by its groups. */
  const UUID_NAMESPACE := "4183b33a" + "-" + "de9e" + "-" + "4074" + "-" + "bdb1" + "-" + "e8d33c7cc35a"

  lemma NamespaceIsStandard()
    ensures U.Parse(UUID_NAMESPACE).Some?
  {
    assert U.AllHex("4183b33a") && U.AllHex("de9e") && U.AllHex("4074") && U.AllHex("bdb1");
    assert U.AllHex("e8d33c7cc35a");
    U.GroupsAreStandard("4183b33a", "de9e", "4074", "bdb1", "e8d33c7cc35a");
    hide U.Parse, U.ThirtyTwoDigits, U.StandardForm;
    U.ParseKeepsPromiseIff(UUID_NAMESPACE);
  }

  /** The characters of an ASCII text as bytes. */
  function Ascii(s: string): (bytes: seq<Byte>)
    ensures |bytes| == |s| && forall i :: 0 <= i < |s| ==> bytes[i] == s[i] as int % 256
  {
    seq(|s|, i requires 0 <= i < |s| => s[i] as int % 256)
  }

  /** The identifier text derived from a name. */
  function Derived(name: string): string {
    NamespaceIsStandard();
    U.NameBased(U.Parse(UUID_NAMESPACE).value, Ascii(name))
  }

  method Derive(name: string) returns (uuid: string)
    ensures uuid == Derived(name)
  {
    hide U.Parse, U.NameBased, U.StandardForm, U.ThirtyTwoDigits, U.IsNameBased;
    NamespaceIsStandard();
    var text := U.UuidV5(UUID_NAMESPACE, Ascii(name));
    U.ParseIffDigits(UUID_NAMESPACE);
    uuid := text.value;
  }

  /** Behind one prefix, different ids give different names to derive from. */
  lemma NamesDistinct(prefix: string, i: nat, j: nat)
    requires Ascii(prefix + D.NatText(i)) == Ascii(prefix + D.NatText(j))
    ensures i == j
  {
    var s, t := D.NatText(i), D.NatText(j);
    hide D.NatText;
    assert |prefix + s| == |prefix + t|;
    forall k | 0 <= k < |s|
      ensures s[k] == t[k]
    {
      assert Ascii(prefix + s)[|prefix| + k] == Ascii(prefix + t)[|prefix| + k];
      assert D.IsDigit(s[k]) && D.IsDigit(t[k]);
      assert (prefix + s)[|prefix| + k] == s[k] && (prefix + t)[|prefix| + k] == t[k];
    }
    assert s == t;
  }
}
