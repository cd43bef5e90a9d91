# Legal-entity name converter, modelled in Dafny

Apigee's PHP client for the Monetization API translates field names between
the remote API and its in-memory entities with name converters. The abstract
`LegalEntityNameConvert` (the converter for developer and company legal
entities) extends the organization-profile converter. Its only logic is
`getExternalToLocalMapping()`. That method takes the parent converter's
external-to-local table and applies `+= ['customAttributes' => 'attributes']`
to it.

The model has two modules:

- `PhpArrays` (`php_arrays.dfy`) models PHP associative arrays and the
  array-union operator `+`. An array is an ordered `seq` of key/value
  entries with unique keys (`UniqueKeys`). `ToMap` gives its key-to-value
  table. `UnionOrdered` is `+` as PHP evaluates it. It keeps the left
  operand as it is, then walks the right operand in order and appends each
  entry whose key is still missing. `Union` is the same operation on tables,
  and `UnionOrderedToMap` proves that the two agree.
- `LegalEntityNameConvert` (`legal_entity_name_convert.dfy`) holds
  `GetExternalToLocalMapping(parent)`. It is `parent + [customAttributes =>
  attributes]` on arrays. `ExternalToLocalTable` is the same extension on
  tables. The parent array comes from `OrganizationProfileNameConverter`,
  which is not part of this model, so it is a parameter. It may be any PHP
  array of strings to strings.

Left bias: an overriding merge would replace a parent `customAttributes`
entry. Array `+=` never overwrites, so the parent's value is kept.
`TableVersusOverride` states exactly when the two agree, and
`ExampleParentWithKey` shows a parent whose own value wins.

## Model

| member | source | states |
|---|---|---|
| `PhpArrays.UnionOrdered` | src/Api/Monetization/NameConverter/LegalEntityNameConvert.php:40 | `+` on arrays keeps the left operand as a prefix of the result and adds at most one entry per right entry |
| `PhpArrays.UnionOrderedKeys` | src/Api/Monetization/NameConverter/LegalEntityNameConvert.php:40 | a key is in `left + right` if and only if it is a key of `left` or of `right` |
| `PhpArrays.UnionOrderedUniqueKeys` | src/Api/Monetization/NameConverter/LegalEntityNameConvert.php:40 | `+` of an array with unique keys and any array has unique keys |
| `PhpArrays.UnionOrderedAppendsMissing` | src/Api/Monetization/NameConverter/LegalEntityNameConvert.php:40 | for a right operand with unique keys, `left + right` is `left` followed by exactly the right entries whose keys `left` lacks, in the right operand's order (`Missing`) |
| `PhpArrays.UnionOrderedCovered` | src/Api/Monetization/NameConverter/LegalEntityNameConvert.php:40 | `+` adds nothing when the left array already has every key of the right one |
| `PhpArrays.UnionOrderedIdempotent` | src/Api/Monetization/NameConverter/LegalEntityNameConvert.php:40 | applying `+= right` a second time gives the same array |
| `PhpArrays.UnionOrderedToMap` | src/Api/Monetization/NameConverter/LegalEntityNameConvert.php:40 | the table of `left + right` is the left-biased `Union` of the two operands' tables |
| `PhpArrays.ToMapAt` | src/Api/Monetization/NameConverter/LegalEntityNameConvert.php:40 | in an array with unique keys, the table maps every entry's key to that entry's value (the values half of `ToMap`'s meaning) |
| `PhpArrays.ToMapSize` | src/Api/Monetization/NameConverter/LegalEntityNameConvert.php:40 | an array with unique keys has exactly as many entries as its table |
| `PhpArrays.Union` | src/Api/Monetization/NameConverter/LegalEntityNameConvert.php:40 | `+` on tables: the key set is the union of both key sets; left entries keep their values; right entries fill in only keys the left lacks |
| `PhpArrays.UnionSize` | src/Api/Monetization/NameConverter/LegalEntityNameConvert.php:40 | the union has the left's entries plus one per right key the left lacks |
| `PhpArrays.UnionCovered` | src/Api/Monetization/NameConverter/LegalEntityNameConvert.php:40 | the union equals the left operand if and only if the left already has every right key |
| `PhpArrays.UnionVersusOverride` | src/Api/Monetization/NameConverter/LegalEntityNameConvert.php:40 | left-biased union equals a right-biased (overriding) merge if and only if the operands agree on every shared key |
| `LegalEntityNameConvert.OwnMapping` | src/Api/Monetization/NameConverter/LegalEntityNameConvert.php:40-42 | the array literal has the single key `customAttributes`, mapped to `attributes` |
| `LegalEntityNameConvert.GetExternalToLocalMapping` | src/Api/Monetization/NameConverter/LegalEntityNameConvert.php:37-45 | a parent array that has `customAttributes` comes back unchanged; any other parent gets `customAttributes => attributes` appended after all its entries; the result has unique keys and its table is `ExternalToLocalTable` of the parent's table |
| `LegalEntityNameConvert.MappingIdempotent` | src/Api/Monetization/NameConverter/LegalEntityNameConvert.php:40 | extending an already extended array gives the same array |
| `LegalEntityNameConvert.ExternalToLocalTable` | src/Api/Monetization/NameConverter/LegalEntityNameConvert.php:39-44 | the result's keys are exactly the parent's plus `customAttributes`; every parent entry keeps its value; `customAttributes` maps to `attributes` when the parent lacks it |
| `LegalEntityNameConvert.TableSize` | src/Api/Monetization/NameConverter/LegalEntityNameConvert.php:39-44 | the table has one more entry than the parent's when the parent lacks `customAttributes`, and the same number otherwise |
| `LegalEntityNameConvert.TableUnchangedIff` | src/Api/Monetization/NameConverter/LegalEntityNameConvert.php:39-44 | the table is the parent's table unchanged if and only if the parent already has a `customAttributes` key |
| `LegalEntityNameConvert.TableIdempotent` | src/Api/Monetization/NameConverter/LegalEntityNameConvert.php:40 | extending an already extended table gives the same table |
| `LegalEntityNameConvert.TableVersusOverride` | src/Api/Monetization/NameConverter/LegalEntityNameConvert.php:40 | the table equals the parent with `customAttributes` overwritten by `attributes` if and only if the parent lacks the key or already maps it to `attributes` |
| `LegalEntityNameConvert.TableKeepsNonEmptyNames` | src/Api/Monetization/NameConverter/LegalEntityNameConvert.php:39-44 | if every field name in the parent table is non-empty, every field name in the result is too |
| `LegalEntityNameConvert.ExampleParentWithoutKey` | src/Api/Monetization/NameConverter/LegalEntityNameConvert.php:39-44 | the parent `[id => id, name => name]` becomes `[id => id, name => name, customAttributes => attributes]` |
| `LegalEntityNameConvert.ExampleParentWithKey` | src/Api/Monetization/NameConverter/LegalEntityNameConvert.php:40 | the parent `[id => id, customAttributes => oldAttr]` comes back unchanged: the parent's value is kept |

## Left out

- The contents of `OrganizationProfileNameConverter::getExternalToLocalMapping()`: that class is not part of this model. Its table is the arbitrary parameter `parent`.
- PHP's integer-key normalisation (a numeric string key becoming an int) is not modelled. All keys here are field names.
- The Symfony `NameConverterInterface` and the inherited `normalize`/`denormalize` lookups that read this table. They are library code outside this model.
- The abstract class and the inheritance dispatch through `parent::`. Passing the parent table as a parameter replaces them.
- Hydrating, serializing and sending `LegalEntity` records over HTTP. These are external collaborators and I/O.
