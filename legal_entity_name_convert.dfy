/**
 The external-to-local field-name table of the monetization legal-entity
 name converter.

 A legal entity carries an organization profile, so its converter starts from
 the organization-profile converter's table (here the parameter `parent`) and
 adds one pair: the API's `customAttributes` field is the entity's local
 `attributes` property. The pair is added with PHP's `+=`, so it only fills
 the key in when the parent table does not have it already.
 */
module LegalEntityNameConvert {
  import opened PhpArrays

  /** The external (wire) field name the converter adds. */
  const CustomAttributesExternal: string := "customAttributes"

  /** The local (in-memory) property name it maps to. */
  const CustomAttributesLocal: string := "attributes"

  /** The one-entry array literal on the right of `+=`. */
  function OwnMapping(): (a: seq<(string, string)>)
    ensures UniqueKeys(a)
    ensures ToMap(a) == map[CustomAttributesExternal := CustomAttributesLocal]
  {
    [(CustomAttributesExternal, CustomAttributesLocal)]
  }

  /** The table the legal-entity converter hands to the serializer, as a PHP
      array, given the array of the organization-profile converter it
      extends. */
  function GetExternalToLocalMapping(parent: seq<(string, string)>): (r: seq<(string, string)>)
    requires UniqueKeys(parent)
    // a parent that names "customAttributes" is returned as it is
    ensures HasKey(parent, CustomAttributesExternal) ==> r == parent
    // otherwise the new pair is appended after all of the parent's entries
    ensures !HasKey(parent, CustomAttributesExternal)
            ==> r == parent + [(CustomAttributesExternal, CustomAttributesLocal)]
    ensures UniqueKeys(r)
    // seen as a table, it is the parent's table extended by ExternalToLocalTable
    ensures ToMap(r) == ExternalToLocalTable(ToMap(parent))
  {
    UnionOrderedUniqueKeys(parent, OwnMapping());
    UnionOrderedToMap(parent, OwnMapping());
    UnionOrdered(parent, OwnMapping())
  }

  /** Running the extension on its own result changes nothing. */
  lemma MappingIdempotent(parent: seq<(string, string)>)
    requires UniqueKeys(parent)
    ensures GetExternalToLocalMapping(GetExternalToLocalMapping(parent)) == GetExternalToLocalMapping(parent)
  {
    UnionOrderedIdempotent(parent, OwnMapping());
  }

  /** The same operation on tables: the parent's table with "customAttributes"
      filled in where it is missing. */
  function ExternalToLocalTable(parent: map<string, string>): (r: map<string, string>)
    // nothing else changes: exactly the parent's keys plus "customAttributes"
    ensures r.Keys == parent.Keys + {CustomAttributesExternal}
    // every parent entry survives unchanged, including a "customAttributes" one
    ensures forall k {:trigger r[k]} :: k in parent ==> r[k] == parent[k]
    // the new pair is used only where the parent has no such key
    ensures CustomAttributesExternal !in parent ==> r[CustomAttributesExternal] == CustomAttributesLocal
  {
    Union(parent, ToMap(OwnMapping()))
  }

  /** The table grows by one entry exactly when the parent lacks the key. */
  lemma TableSize(parent: map<string, string>)
    ensures CustomAttributesExternal !in parent ==> |ExternalToLocalTable(parent)| == |parent| + 1
    ensures CustomAttributesExternal in parent ==> |ExternalToLocalTable(parent)| == |parent|
  {
    UnionSize(parent, ToMap(OwnMapping()));
  }

  /** The table is the parent's, unchanged, exactly when the parent already
      names "customAttributes". */
  lemma TableUnchangedIff(parent: map<string, string>)
    ensures ExternalToLocalTable(parent) == parent <==> CustomAttributesExternal in parent
  {
    UnionCovered(parent, ToMap(OwnMapping()));
  }

  /** Extending an already extended table changes nothing. */
  lemma TableIdempotent(parent: map<string, string>)
    ensures ExternalToLocalTable(ExternalToLocalTable(parent)) == ExternalToLocalTable(parent)
  {
    TableUnchangedIff(ExternalToLocalTable(parent));
  }

  /** The table agrees with an overriding update (the parent with
      "customAttributes" set to "attributes") exactly when the parent has no
      "customAttributes" entry or already maps it to "attributes". On any other
      parent the two differ: `+=` keeps the parent's value. */
  lemma TableVersusOverride(parent: map<string, string>)
    ensures ExternalToLocalTable(parent) == parent[CustomAttributesExternal := CustomAttributesLocal]
            <==> (CustomAttributesExternal !in parent || parent[CustomAttributesExternal] == CustomAttributesLocal)
  {
    UnionVersusOverride(parent, ToMap(OwnMapping()));
  }

  /** Every key and every value of a table is a non-empty field name. */
  predicate NonEmptyNames(m: map<string, string>)
  {
    forall k {:trigger m[k]} :: k in m ==> k != "" && m[k] != ""
  }

  /** Extending a table of non-empty names gives a table of non-empty names. */
  lemma TableKeepsNonEmptyNames(parent: map<string, string>)
    requires NonEmptyNames(parent)
    ensures NonEmptyNames(ExternalToLocalTable(parent))
  {
    var r := ExternalToLocalTable(parent);
    forall k | k in r ensures k != "" && r[k] != "" {
      if k !in parent {
        assert k == CustomAttributesExternal;
      }
    }
  }

  /** A parent without the key: the pair is appended at the end. */
  lemma ExampleParentWithoutKey()
    ensures GetExternalToLocalMapping([("id", "id"), ("name", "name")])
            == [("id", "id"), ("name", "name"), ("customAttributes", "attributes")]
  {
    var p := [("id", "id"), ("name", "name")];
    assert !HasKey(p, CustomAttributesExternal) by {
      assert p[0].0 != CustomAttributesExternal && p[1].0 != CustomAttributesExternal;
    }
  }

  /** A parent that already names the key: its own value wins. */
  lemma ExampleParentWithKey()
    ensures GetExternalToLocalMapping([("id", "id"), ("customAttributes", "oldAttr")])
            == [("id", "id"), ("customAttributes", "oldAttr")]
  {
    var p := [("id", "id"), ("customAttributes", "oldAttr")];
    assert HasKey(p, CustomAttributesExternal) by {
      assert p[1].0 == CustomAttributesExternal;
    }
  }
}
