# FilterParameter: enumeration table and boolean slot

This project models the core of `FilterParameter`, the typed configuration
value that scopehal filters and protocol decoders expose to the user. The
model covers four things:

- The parameter's **kind**: one of seven payload types. The constructor sets
  it and nothing changes it afterwards, so it is a `const` field.
- The **integer payload slot** `intval`, a C++ `int64_t`. Booleans are stored
  in it as 0 or 1 and read back as "non-zero".
- The **enumeration table**: a forward map from symbolic name to integer code
  (`forwardEnumMap`) and a reverse map from code to name (`reverseEnumMap`).
  `AddEnumValue` writes one entry into each map, and the two writes are
  independent.
- **`GetEnumValues`**: it appends every name of the forward map to a
  caller-owned vector. It visits the names in the order the map keeps its
  keys, which is ascending lexicographic order.

There are two modules:

- `KeyOrder` (`KeyOrder.dfy`) defines `Less`, the order `std::string`'s
  `operator<` gives, where a proper prefix comes first. It proves that `Less`
  is a strict total order. It also specifies `SortedKeys(s)`, the sequence
  in which iterating a `std::map` visits the key set `s`.
- `Parameters` (`Parameters.dfy`) holds the `FilterParameter` class, the
  integer widths as newtypes, and the lemmas about the two maps.

`Parameters.FilterParameter` keeps a ghost `history` of every
`AddEnumValue` call. `Valid()` ties the two maps to that history through
`ForwardAfter` and `ReverseAfter`, which rebuild the maps from empty ones.

The caller's `std::vector<std::string>&` is modelled as a sequence passed in
and returned with the names appended. Characters are compared by their code,
as `std::char_traits<char>` compares bytes.

Two behaviours of the code are worth stating outright:

- **Listing order.** `GetEnumValues` lists names in key order, not in the
  order they were added. `TriggerEdgeExample` adds "Rising" then "Falling"
  and gets back `["Falling", "Rising"]`; `EnumOrderExample` states the
  underlying fact about `SortedKeys`.
- **Map consistency.** `AddEnumValue` writes the two maps independently, so
  they can disagree. `AddKeepsConsistent` states exactly when they stay
  inverse, and `StaleReverseEntry` and `StaleForwardEntry` show the entry
  left behind otherwise.

## Model

| member | source | states |
|---|---|---|
| `KeyOrder.LessTrichotomy` | scopehal/FilterParameter.h:102 | Any two key strings are ordered one way, the other way, or are equal, so the forward map's key order is total |
| `KeyOrder.LessTransitive` | scopehal/FilterParameter.h:102 | The key order is transitive |
| `KeyOrder.LessIrreflexive` | scopehal/FilterParameter.h:102 | No key string comes before itself, so the order is strict |
| `KeyOrder.LeastExists` | scopehal/FilterParameter.h:93-94 | Every non-empty key set has a first key in map order, so each step of the iteration has a key to visit |
| `KeyOrder.SortedKeysSpec` | scopehal/FilterParameter.h:93-94 | Iterating the map yields every key exactly once, nothing else, in strictly ascending order; its length is the number of keys |
| `KeyOrder.SortedKeysUnique` | scopehal/FilterParameter.h:102 | Any strictly ascending sequence of exactly the map's keys is the iteration order, so the listing depends on the key set alone |
| `Parameters.IntOfBool` | scopehal/FilterParameter.h:66-67 | Storing a boolean writes 0 or 1 into the 64-bit slot, and reading that slot as a boolean gives the stored boolean back |
| `Parameters.BoolSlotNormalises` | scopehal/FilterParameter.h:58-67 | Writing back the boolean read from the slot leaves the slot unchanged exactly when it held 0 or 1; any other non-zero value becomes 1 |
| `Parameters.StaleReverseEntry` | scopehal/FilterParameter.h:86-87 | Re-adding a known name with a new code leaves the old code's reverse entry pointing at that name, while the name maps to the new code |
| `Parameters.StaleForwardEntry` | scopehal/FilterParameter.h:86-87 | Reusing a known code for a new name leaves the old name's forward entry pointing at that code, while the code maps to the new name |
| `Parameters.AddKeepsConsistent` | scopehal/FilterParameter.h:86-87 | From mutually inverse maps, an insert leaves them mutually inverse if and only if the name is new or already bound to that code, and the code is new or already bound to that name |
| `Parameters.AfterKeys` | scopehal/FilterParameter.h:84-88 | After a sequence of inserts from empty maps, the forward map's keys are exactly the names ever added, and the reverse map's keys exactly the codes ever added |
| `Parameters.DistinctEntriesConsistent` | scopehal/FilterParameter.h:84-88 | If no two inserts share a name and no two share a code, the resulting maps are mutual inverses, and every inserted pair is present in both: the forward map sends its name to its code and the reverse map sends its code to its name |
| `Parameters.EnumOrderExample` | scopehal/FilterParameter.h:93-94 | The names "Rising" and "Falling" are listed as "Falling", "Rising": key order, not insertion order |
| `Parameters.FilterParameter.constructor` | scopehal/FilterParameter.h:53 | A new parameter has the given kind, `TypeFloat` when none is given, and empty enumeration maps |
| `Parameters.FilterParameter.GetType` | scopehal/FilterParameter.h:73-74 | Returns the kind given to the constructor; `kind` is a `const` field, so every call on an object returns the same kind |
| `Parameters.FilterParameter.GetBoolVal` | scopehal/FilterParameter.h:58-59 | The boolean read is true exactly when the integer slot is non-zero |
| `Parameters.FilterParameter.SetBoolVal` | scopehal/FilterParameter.h:66-67 | Sets the slot to 1 for true and 0 for false, so `GetBoolVal` then returns the boolean given; the enumeration maps are unchanged |
| `Parameters.FilterParameter.AddEnumValue` | scopehal/FilterParameter.h:84-88 | Afterwards the name maps to the code and the code maps to the name. No other key of either map changes, and the slot is untouched. From consistent maps, the result is consistent exactly when the pair conflicts with no earlier pairing |
| `Parameters.FilterParameter.GetEnumValues` | scopehal/FilterParameter.h:91-95 | The caller's elements stay as an unchanged prefix. Exactly one element per forward-map key is appended: every key, no other string, no duplicates, in strictly ascending order. The parameter is not changed |

## Left out

- The float payload, the string payload and the file-name list are left out, along with their accessors `GetIntVal`/`SetIntVal`, `GetFloatVal`/`SetFloatVal` and `GetFileName(s)`/`SetFileName(s)`. These accessors are only declared in the header, so their behaviour is not visible.
- `ParseString` and `ToString` are only declared. The text format, the file-list delimiter and what happens with an unknown name or code are not visible.
- The `Unit` member and the constructor's `unit` argument are left out. They belong to an external unit formatter that is not part of this model.
- The constructor's body is not visible. The model's constructor takes the initial integer payload as a parameter and starts with empty maps, which is what `std::map`'s default construction gives.
- `m_fileFilterMask`, `m_fileFilterName` and `m_fileIsOutput` are advisory public fields with no behaviour, so they are left out.
- `OscilloscopeChannel` is not part of this model. Its data ownership, enable state, coupling, attenuation, bandwidth and voltage range are only declared, and they forward to an instrument driver that is not shown.
- The header has no internal concurrency, so there is none to model.
- Parameters.FilterParameter.GetEnumValues: the `std::map` iterator is modelled as repeatedly taking the least key not yet visited. The map's internal tree is not modelled.
