# Anchor registry

A Dafny model of the anchor registry that a UWB tag keeps in `C02map/tag/link.cpp`.
The source keeps a singly-linked list behind a sentinel head node. Each record holds
a 16-bit anchor address, a three-slot window of distance readings (`range[0..2]`)
and a signal strength (`dbm`). The list supports append (`add_link`), lookup by
address (`find_link`), a smoothed update (`fresh_link`), deletion by address
(`delete_link`) and export as a JSON array (`make_link_json`).

The model treats the list as the sequence of its records in list order (`Registry.Link`).
The sentinel carries no data, so it stays implicit and `init_link` becomes the empty
sequence. Every operation is a pure function from the old list to the new one.

- `anchor.dfy`, module `Anchor`: the record, its distance window and the
  shift-then-average smoothing rule.
- `registry.dfy`, module `Registry`: `Init`, `Add`, `Find`, `Fresh` and `Delete`.
  It also has the methods `FindLink` and `DeleteLink`, which follow the source's
  cursor loops and are proved equal to the functions.
- `registry_facts.dfy`, module `RegistryFacts`: properties that relate several
  operations, such as duplicates, uniqueness, delete undoing add, and lookups
  surviving an update.
- `export.dfy`, module `Export`: the `%04X` address text with its parser, the
  decimal rendering of `%lu` and `%d`, the object text, and the comma-joined array.
  It includes `MakeLinkJson`, the source's loop with the `first` flag, proved equal
  to the comma join.

A lookup returns `Found(index)`, the position of the record whose address `find_link` hands back. Otherwise
it returns `Missing(why)`, where `why` names which of the three `NULL` returns the
source took: zero address, empty list, or no match.

Two points of behaviour follow the code exactly. First, the two older window slots
hold earlier smoothed estimates, not raw readings, because `fresh_link` shifts
`range[0]` after smoothing it. Second, address uniqueness is intended but not
enforced: `add_link` appends duplicates, and `add_link` with address 0 appends a
record that lookup, update and delete can never reach.

A lookup after a delete does not always miss with "not found". When the deleted
record was the only one, `find_link` takes its empty-list return first
(link.cpp:56-59), so the model gives `Missing(EmptyLink)` there and
`Missing(NotFound)` otherwise (`RegistryFacts.DeleteThenFind`).

## Model

| member | source | states |
|---|---|---|
| Anchor.NewRecord | C02map/tag/link.cpp:32-38 | a new record carries the given address, a window of three zeros and a signal strength of 0 |
| Anchor.Smooth | C02map/tag/link.cpp:85-88 | stated in the old slot values: the new oldest slot is the old middle one, the new middle slot is the old latest one, and the new latest is the mean of the sample and the two old slots |
| Anchor.Refresh | C02map/tag/link.cpp:85-89 | an update keeps the address, smooths the window and overwrites the signal strength with the new value (it is not smoothed) |
| Anchor.SmoothStaysWithin | C02map/tag/link.cpp:88 | the filter is a mean: if the window and the sample lie in a band, the smoothed window does too |
| Anchor.ThreeReadingsFromZero | C02map/tag/link.cpp:85-88 | from a zero window, readings d, e, f give [d/3,0,0], then [(e+d/3)/3,d/3,0], then [(f+(e+d/3)/3+d/3)/3,(e+d/3)/3,d/3] |
| Registry.Init | C02map/tag/link.cpp:5-18 | a new registry holds no records |
| Registry.Add | C02map/tag/link.cpp:25-40 | the list grows by one record, placed at the end with the given address, zero window and zero signal strength; all earlier records are unchanged and keep their order |
| Registry.Scan | C02map/tag/link.cpp:62-74 | the scan stops at the first record at or after its start that has the address; every record it skips has another address; it returns the list length when nothing matches |
| Registry.Find | C02map/tag/link.cpp:45-75 | the zero address always gives InvalidAddress; otherwise an empty list gives EmptyLink; a record is found iff the address is present, and the one found is the first with that address; NotFound holds iff the list is non-empty and lacks the address |
| Registry.FindLink | C02map/tag/link.cpp:50-74 | the early returns for the zero address and the empty list, then the cursor loop, give the same outcome as `Find` on every input |
| Registry.Fresh | C02map/tag/link.cpp:77-97 | length, order and all addresses are kept; the record lookup selects is refreshed with the reading, and every other record is unchanged; a zero or absent address leaves the list as it was |
| Registry.Without | C02map/tag/link.cpp:130-132 | unlinking record i keeps the records before it in place and moves the ones after it up by one |
| Registry.RemoveFirst | C02map/tag/link.cpp:125-136 | unlinks exactly the first record with the address, keeping the records before and after it in order; a list without the address is unchanged |
| Registry.Delete | C02map/tag/link.cpp:117-138 | the zero address or an absent address leaves the list unchanged; otherwise the first matching record is removed and the rest keep their order |
| Registry.DeleteLink | C02map/tag/link.cpp:122-137 | the early return for the zero address, then the look-ahead cursor loop, give the same list as `Delete` on every input |
| RegistryFacts.AddThenFind | C02map/tag/link.cpp:25-40 | after an append, looking up an already-present address still finds the earlier record, and looking up a new address finds the appended record at the end |
| RegistryFacts.AddDuplicate | C02map/tag/link.cpp:20-43 | appending a present address leaves one more record with it (at least two), breaks uniqueness, and lookup can never select the appended duplicate |
| RegistryFacts.AddKeepsUnique | C02map/tag/link.cpp:20-43 | after an append, addresses are unique iff they were unique before and the address was new |
| RegistryFacts.ZeroAddressUnreachable | C02map/tag/link.cpp:50-54 | a record appended with address 0 is kept, but lookup, update and delete on address 0 never reach it |
| RegistryFacts.FreshKeepsLookups | C02map/tag/link.cpp:82-90 | after an update, lookup gives the same outcome as before for every address, and uniqueness is unchanged |
| RegistryFacts.ThreeReadingsAfterAdd | C02map/tag/link.cpp:77-97 | appending a new anchor and then updating it three times leaves the worked three-step rolling mean and the last signal strength in that anchor's record; the records before it are unchanged |
| RegistryFacts.DeleteRemovesOne | C02map/tag/link.cpp:126-134 | deleting a present address removes one record: the count of that address drops by one and every other address keeps its count |
| RegistryFacts.DeleteKeepsLaterDuplicate | C02map/tag/link.cpp:128-133 | when the address appears twice or more, it is still present after one delete |
| RegistryFacts.DeleteThenFind | C02map/tag/link.cpp:117-138 | on a list with unique addresses, the deleted address is gone and a later lookup fails: with EmptyLink when the deleted record was the only one, with NotFound otherwise |
| RegistryFacts.DeleteKeepsUnique | C02map/tag/link.cpp:117-138 | a delete never breaks address uniqueness |
| RegistryFacts.DeleteUndoesAdd | C02map/tag/link.cpp:117-138 | deleting a non-zero address just appended to a list that lacked it gives back the original list |
| Export.Mask16 | C02map/tag/link.cpp:153 | `& 0xFFFF` keeps the value modulo 2^16 and leaves every 16-bit address unchanged |
| Export.Hex4 | C02map/tag/link.cpp:152-153 | `%04X` of the masked address is four upper-case hexadecimal digits; `Hex4RoundTrip` and `Hex4Onto` show it is a bijection onto such texts, with the most significant digit first |
| Export.Hex4RoundTrip | C02map/tag/link.cpp:152-153 | the address text is four upper-case hexadecimal digits that read back as the address |
| Export.Hex4Onto | C02map/tag/link.cpp:153 | every four-digit upper-case hexadecimal text renders exactly one address, so the rendering is a bijection |
| Export.Decimal | C02map/tag/link.cpp:157-159 | `%lu` of the timestamp is a non-empty text of decimal digits that starts with `0` only when it is exactly `0`, which happens iff the value is 0; `DecimalRoundTrip` shows it reads back as the value |
| Export.SignedDecimal | C02map/tag/link.cpp:157-159 | `%d` of the CO2 value starts with a minus sign iff the value is negative, and the digits after it carry no leading zero (a leading `0` means they are exactly `0`); `SignedDecimalRoundTrip` shows they read back as its magnitude |
| Export.DecimalRoundTrip | C02map/tag/link.cpp:157-159 | the `%lu` text of the timestamp is non-empty, all digits, starts with `0` only when it is exactly `0`, and reads back as the value |
| Export.SignedDecimalRoundTrip | C02map/tag/link.cpp:157-159 | the `%d` text of the CO2 value starts with a minus sign iff the value is negative; the digits after it have no leading zero and read back as its magnitude |
| Export.ObjectText | C02map/tag/link.cpp:157-159 | one record's object opens with `{` and closes with `}`; `ObjectAddressField` places its `"A"` field and `ObjectBraces` shows it holds no other brace |
| Export.ObjectBody | C02map/tag/link.cpp:157-159 | the object between `{"T":` and `}`: the timestamp, the `"A"` key, the address digits and the tail, in the order of the format string; characterised by `ObjectAddressField` and `BodyBraceFree` |
| Export.ObjectTail | C02map/tag/link.cpp:157-159 | the closing quote of the address, then the `"R"` field with `range[0]`, the `"Rx"` field with `dbm` and the `"C"` field with the CO2 value; `BodyBraceFree` shows it adds no brace |
| Export.Objects | C02map/tag/link.cpp:146-161 | one object per record, in list order, record i stamped with the clock reading taken while it is printed |
| Export.Join | C02map/tag/link.cpp:144-150 | the objects separated by single commas; `ExportShape` (through `JoinEnds`) shows no comma leads or trails and `ExportObjectCount` (through `JoinOccurrences`) that the export holds exactly as many opening and as many closing braces as the registry has records |
| Export.LinkJson | C02map/tag/link.cpp:140-164 | the exported text is bracketed by `[` and `]`; `MakeLinkJson` shows the source loop produces it and `ExportShape` that it is `[]` exactly for an empty registry |
| Export.ObjectAddressField | C02map/tag/link.cpp:152-159 | an object opens with `{"T":` and closes with `}`; its `"A"` field holds exactly the four hexadecimal digits of the record's address, which read back as that address |
| Export.MakeLinkJson | C02map/tag/link.cpp:140-168 | the loop with the `first` flag produces `[`, the objects in list order joined by single commas, then `]` |
| Export.ObjectBraces | C02map/tag/link.cpp:157-159 | an object has exactly one opening and one closing brace, provided the rendered reals have none |
| Export.ExportObjectCount | C02map/tag/link.cpp:142-164 | the export has as many opening and as many closing braces as the list has records: one object per record |
| Export.ExportShape | C02map/tag/link.cpp:142-164 | the export is bracketed; it is exactly `[]` iff the list is empty; otherwise `[` is directly followed by `{` and `]` directly preceded by `}`, so no comma leads or trails |

## Left out

- Memory management: `malloc`/`free` and the rewiring of `next` links are not modelled; the list is an owned sequence. A failed allocation (link.cpp:10, :32) is unhandled in the source and has no counterpart here.
- The sentinel's own fields (`anchor_addr = 0` and a zero window set by `init_link`, `dbm` left unset) are not modelled, because no operation reads them.
- Diagnostics: every `Serial.println`, and `print_link` (link.cpp:99-115), are console output that never affects control flow.
- Floating point: `range` and `dbm` are exact reals, so `Smooth` states the rule without IEEE `float` rounding.
- `%.2f` rendering is the parameter `fixed2` of the export functions; its digits are not modelled.
- `millis()` is the parameter `clock`: `clock(i)` is the reading taken while printing record `i`. The source samples the clock once per record, so the timestamps in one export need not be equal.
- The `char` buffers of `make_link_json` and their overflow are not modelled: `sprintf` into `addrStr[8]` and `link_json[120]`.
- The CO2 value is modelled as a 32-bit `int`. On a target whose `int` is 16 bits wide, only the `Int32` bound would change.
- Export.ObjectBraces: requires that the `%.2f` texts hold no brace, because the decimal renderer is abstract; real `%.2f` output never holds one.
- Export.ExportObjectCount: requires the same of every `%.2f` text, for the same reason.
