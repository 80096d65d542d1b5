/** `getIndexedEntities`: the human-readable identity of every row position of a bulk. */
module IdentityIndexer {
  import opened Wrappers
  import opened Entities

  /** Label given to a row that carries no identity of its own, before the carried identity. */
  const FallbackPrefix := "Associated to previous "

  /** The identity field of an entity kind; no field (PHP `null`) for any other kind. */
  function IdentityField(kind: string): Option<string>
  {
    if kind == "catalog_product" then Some("sku")
    else if kind == "attributes" then Some("attribute_id")
    else if kind == "catalog_category" then Some("name")
    else None
  }

  /** PHP's `empty()` on a string value: the empty string and "0" are both empty. */
  predicate PhpEmpty(value: string)
  {
    value == "" || value == "0"
  }

  /** `isset($row[$field]) && !empty($row[$field])`. */
  predicate HasIdentity(row: Row, field: string)
  {
    field in row && !PhpEmpty(row[field])
  }

  /** The identity carried forward to position `i`: that of the last row before `i`
      which has one, or "" when none has. */
  function CarriedIdentity(rows: Bulk, field: string, i: nat): string
    requires i <= |rows|
  {
    if i == 0 then ""
    else if HasIdentity(rows[i - 1], field) then rows[i - 1][field]
    else CarriedIdentity(rows, field, i - 1)
  }

  /** The label of the row at position `i`. */
  function Label(rows: Bulk, field: string, i: nat): string
    requires i < |rows|
  {
    if HasIdentity(rows[i], field) then rows[i][field]
    else FallbackPrefix + CarriedIdentity(rows, field, i)
  }

  /** The whole index of a bulk for a given identity field: one label per position. */
  function Index(rows: Bulk, field: string): IdentityIndex
  {
    seq(|rows|, i requires 0 <= i < |rows| => Label(rows, field, i))
  }

  /** What `getIndexedEntities` returns for a bulk of a given kind. */
  function IndexFor(rows: Bulk, kind: string): Option<IdentityIndex>
  {
    match IdentityField(kind)
    case None => None
    case Some(field) => Some(Index(rows, field))
  }

  /** The carried identity is that of the NEAREST earlier row with an identity: rows
      without one in between leave it unchanged. */
  lemma {:induction false} CarriedIdentityIsNearest(rows: Bulk, field: string, i: nat, j: nat)
    requires j < i <= |rows|
    requires HasIdentity(rows[j], field)
    requires forall k :: j < k < i ==> !HasIdentity(rows[k], field)
    ensures CarriedIdentity(rows, field, i) == rows[j][field]
  {
    if i - 1 != j {
      CarriedIdentityIsNearest(rows, field, i - 1, j);
    }
  }

  /** With no earlier row carrying an identity, the carried identity is "". */
  lemma {:induction false} CarriedIdentityInitial(rows: Bulk, field: string, i: nat)
    requires i <= |rows|
    requires forall k :: 0 <= k < i ==> !HasIdentity(rows[k], field)
    ensures CarriedIdentity(rows, field, i) == ""
  {
    if i > 0 {
      CarriedIdentityInitial(rows, field, i - 1);
    }
  }

  /** `getIndexedEntities($entities, $entitiesType)`: no index for an unsupported kind;
      otherwise one label per row position, computed in a single pass that carries the
      last identity seen. */
  method IndexEntities(bulk: Bulk, kind: string) returns (index: Option<IdentityIndex>)
    ensures index == IndexFor(bulk, kind)
    ensures index.None? <==> IdentityField(kind).None?
    ensures index.Some? ==> |index.value| == |bulk|
    ensures index.Some? ==>
              forall i :: 0 <= i < |bulk| ==> index.value[i] == Label(bulk, IdentityField(kind).value, i)
  {
    var field;
    match IdentityField(kind) {
      case None =>
        return None;
      case Some(f) =>
        field := f;
    }
    var indexed: IdentityIndex := [];
    var previous := "";
    for i := 0 to |bulk|
      invariant |indexed| == i
      invariant forall k :: 0 <= k < i ==> indexed[k] == Label(bulk, field, k)
      invariant previous == CarriedIdentity(bulk, field, i)
    {
      if HasIdentity(bulk[i], field) {
        indexed := indexed + [bulk[i][field]];
        previous := bulk[i][field];
      } else {
        indexed := indexed + [FallbackPrefix + previous];
      }
    }
    assert indexed == Index(bulk, field);
    index := Some(indexed);
  }
}
