# Administrative roles, trigger-specification cache and the ad-data grammar action

This project models three pieces of decision and update logic in Apache
Directory Server and its Kerberos codec:

- **AdministrativeInterceptor** (`admin.dfy`). This interceptor guards the
  `administrativeRole` attribute.
  - `IsValidRole` accepts a value when, trimmed and lower-cased, it is one of
    the sixteen accepted identifiers. Each of the eight administrative areas
    contributes its lower-cased name and its OID.
  - `Add` decides whether an entry being added is forwarded to the next
    interceptor. An autonomous administrative point must carry all four
    specific areas. No other point may carry both the specific and the inner
    area of the same aspect.
  - `Modify` replays a modify request's administrativeRole modifications
    (ADD, REMOVE, REPLACE), starting from the entry's attribute. The first
    error aborts the request. The request is forwarded only if no
    modification raised. The pure specification is `Replay` and
    `ModifyOutcome`; the method runs the source's loops.
- **TriggerSpecCache** (`trigger_spec_cache.dfy`). This is a class whose
  `triggerSpecs` map takes a normalised subentry name to the list of trigger
  specifications parsed from the subentry's `prescriptiveTriggerSpecification`
  values. Each method is proved against a pure function of the old map:
  `Added`, `Deleted`, `ModifiedByItems`, `ModifiedByContext`, `Renamed` and
  `Lookup`. Lemmas relate those functions to one another.
- **AuthorizationDataAdData** (`authorization_data_ad_data.dfy`). This is the
  decoder action for the `ad-data [1] OCTET STRING` field of AuthorizationData
  (section 5.2.6 of RFC 4120). It refuses a zero-length TLV, then a TLV
  without value bytes. Otherwise it stores the bytes verbatim and sets the
  container's grammar-end-allowed flag.

`wrappers.dfy` holds the `Option` type shared by the three modules.

Three behaviours of the source are modelled exactly as written:

- `Add` enters the autonomous check only when the value set contains the
  autonomous area's name exactly. An autonomous point named by its OID alone
  is accepted without the four specific areas (`AutonomousAreaByOidIsNotChecked`).
- The array form of `subentryModified` calls `Attribute.contains`, which tests
  the attribute's values. So the cache is refreshed only when some
  modification item holds the string `prescriptiveTriggerSpecification` as a
  value (`ModifiedByItemsIgnoresNewSpecifications`).
- An ADD on an absent administrativeRole creates the attribute from
  its first value alone, without validating it.

The two guards of the ad-data action throw the same `DecoderException`
message in the source. The model gives them different error kinds
(`EmptyValueNotAllowed`, `MissingValueBytes`) so that the order of the checks
can be seen.

## Model

| member | source | states |
|---|---|---|
| `AdministrativeInterceptor.AreaIdentifiersAreValid` | core/src/main/java/org/apache/directory/server/core/admin/AdministrativeInterceptor.java:100-120 | every area's name (as spelled and lower-cased) and its OID is accepted as a role |
| `AdministrativeInterceptor.ValidRoleNamesAnArea` | core/src/main/java/org/apache/directory/server/core/admin/AdministrativeInterceptor.java:181-184 | a role is valid iff its trimmed, lower-cased form is the lower-cased name or the OID of some area |
| `AdministrativeInterceptor.ValidRoleIgnoresCase` | core/src/main/java/org/apache/directory/server/core/admin/AdministrativeInterceptor.java:181-184 | lower-casing a role value never changes whether it is valid |
| `AdministrativeInterceptor.ValidRoleIgnoresPadding` | core/src/main/java/org/apache/directory/server/core/admin/AdministrativeInterceptor.java:181-184 | a leading or a trailing space never changes whether a role value is valid |
| `AdministrativeInterceptor.Add` | core/src/main/java/org/apache/directory/server/core/admin/AdministrativeInterceptor.java:243-321 | no administrativeRole: forwarded; the only refusal is UnwillingToPerform; with the autonomous area's name present: forwarded iff every specific area is present by name or OID; otherwise forwarded iff no aspect has both its specific and its inner area |
| `AdministrativeInterceptor.AutonomousAreaByOidIsNotChecked` | core/src/main/java/org/apache/directory/server/core/admin/AdministrativeInterceptor.java:265-291 | the autonomous area given by OID alone is forwarded; given by name alone it is refused |
| `AdministrativeInterceptor.AddRoles` | core/src/main/java/org/apache/directory/server/core/admin/AdministrativeInterceptor.java:364-387 | adding values fails only with InvalidAttributeValue or AttributeInUse |
| `AdministrativeInterceptor.RemoveRoles` | core/src/main/java/org/apache/directory/server/core/admin/AdministrativeInterceptor.java:409-428 | removing values fails only with InvalidAttributeValue or NoSuchAttribute |
| `AdministrativeInterceptor.AddRolesCharacterised` | core/src/main/java/org/apache/directory/server/core/admin/AdministrativeInterceptor.java:364-387 | adding succeeds iff every value is valid, absent from the attribute and not repeated, and then yields the old set plus the values; otherwise the first offending value decides the error (InvalidAttributeValue if invalid, else AttributeInUse) |
| `AdministrativeInterceptor.RemoveRolesCharacterised` | core/src/main/java/org/apache/directory/server/core/admin/AdministrativeInterceptor.java:409-428 | removing succeeds iff every value is valid, present and not repeated, and then yields the old set minus the values; otherwise the first offending value decides the error, validity before presence |
| `AdministrativeInterceptor.AddThenRemoveRestores` | core/src/main/java/org/apache/directory/server/core/admin/AdministrativeInterceptor.java:364-428 | removing the values an accepted ADD added gives back the original attribute |
| `AdministrativeInterceptor.ApplyModification` | core/src/main/java/org/apache/directory/server/core/admin/AdministrativeInterceptor.java:345-475 | a modification of another attribute type leaves the administrativeRole values unchanged; no modification raises UnwillingToPerform |
| `AdministrativeInterceptor.AddToAbsentRole` | core/src/main/java/org/apache/directory/server/core/admin/AdministrativeInterceptor.java:356-362 | ADD on an absent attribute never fails and creates it holding just the first value (none when there is none) |
| `AdministrativeInterceptor.AddToPresentRole` | core/src/main/java/org/apache/directory/server/core/admin/AdministrativeInterceptor.java:364-389 | ADD on a present attribute is accepted iff every value is addable and then yields the union; the first unaddable value decides the error |
| `AdministrativeInterceptor.RemoveFromRole` | core/src/main/java/org/apache/directory/server/core/admin/AdministrativeInterceptor.java:391-430 | REMOVE on an absent attribute gives NoSuchAttribute; no values removes the attribute; otherwise accepted iff every value is removable, yielding the difference; the first unremovable value decides the error |
| `AdministrativeInterceptor.ReplaceRole` | core/src/main/java/org/apache/directory/server/core/admin/AdministrativeInterceptor.java:432-474 | REPLACE on an absent attribute gives NoSuchAttribute; no values removes the attribute; otherwise accepted iff the values are valid and pairwise distinct, and the attribute then holds exactly them |
| `AdministrativeInterceptor.Replay` | core/src/main/java/org/apache/directory/server/core/admin/AdministrativeInterceptor.java:343-476 | replaying never fails with UnwillingToPerform, and a list with no administrativeRole modification leaves the attribute unchanged |
| `AdministrativeInterceptor.ReplayIgnoresOtherAttributes` | core/src/main/java/org/apache/directory/server/core/admin/AdministrativeInterceptor.java:343-350 | dropping the modifications of other attribute types does not change the replay |
| `AdministrativeInterceptor.ReplayConcat` | core/src/main/java/org/apache/directory/server/core/admin/AdministrativeInterceptor.java:343-478 | an error in the first part of a request aborts it and the rest is never examined; otherwise the rest continues from the state the first part left |
| `AdministrativeInterceptor.AddThenRemoveRequestRestores` | core/src/main/java/org/apache/directory/server/core/admin/AdministrativeInterceptor.java:356-430 | a request that ADDs addable values and then REMOVEs the same values is accepted and leaves the attribute as it was |
| `AdministrativeInterceptor.Modify` | core/src/main/java/org/apache/directory/server/core/admin/AdministrativeInterceptor.java:336-479 | the loop over the modifications, with its value loops, returns the outcome of replaying the request on the original attribute |
| `TriggerSpecCache.ParseAll` | core/src/main/java/org/apache/directory/server/core/trigger/TriggerSpecCache.java:170-187 | one item per value, in order, each the parser's result for that value (None for a value that fails to parse) |
| `TriggerSpecCache.Added` | core/src/main/java/org/apache/directory/server/core/trigger/TriggerSpecCache.java:160-190 | without the trigger attribute the cache is unchanged; otherwise the name maps to one parse result per value, replacing any earlier list, and all other names are untouched |
| `TriggerSpecCache.Deleted` | core/src/main/java/org/apache/directory/server/core/trigger/TriggerSpecCache.java:148-201 | the name is removed iff the entry has the trigger attribute (the `hasPrescriptiveTrigger` test); all other names and their lists are untouched |
| `TriggerSpecCache.ModifiedByItems` | core/src/main/java/org/apache/directory/server/core/trigger/TriggerSpecCache.java:204-221 | unchanged unless the entry has the trigger attribute and some item holds the attribute id among its values; then the same as adding the subentry afresh |
| `TriggerSpecCache.ModifiedByContext` | core/src/main/java/org/apache/directory/server/core/trigger/TriggerSpecCache.java:224-236 | unchanged unless the entry has the trigger attribute and the request modifies it; then the same as adding the request's subentry afresh |
| `TriggerSpecCache.Renamed` | core/src/main/java/org/apache/directory/server/core/trigger/TriggerSpecCache.java:250-253 | the new name maps to the old name's list (null if the old name was unknown); the old name is gone unless it equals the new one; other names are untouched |
| `TriggerSpecCache.LookupAfterAdded` | core/src/main/java/org/apache/directory/server/core/trigger/TriggerSpecCache.java:239-247 | after an add, looking the name up yields the parse results of the trigger values |
| `TriggerSpecCache.LookupAfterDeleted` | core/src/main/java/org/apache/directory/server/core/trigger/TriggerSpecCache.java:193-247 | after a delete of a subentry with the trigger attribute, looking it up yields the empty list |
| `TriggerSpecCache.DeleteUndoesAdd` | core/src/main/java/org/apache/directory/server/core/trigger/TriggerSpecCache.java:160-201 | deleting a subentry just added leaves the cache as deleting it alone would |
| `TriggerSpecCache.RenameRoundTrip` | core/src/main/java/org/apache/directory/server/core/trigger/TriggerSpecCache.java:250-253 | renaming a known name to an unused one and back restores the cache |
| `TriggerSpecCache.RenameUnknownStoresNull` | core/src/main/java/org/apache/directory/server/core/trigger/TriggerSpecCache.java:239-253 | renaming an unknown name stores null under the new name, and a lookup of it yields the empty list |
| `TriggerSpecCache.ModifiedByItemsIgnoresNewSpecifications` | core/src/main/java/org/apache/directory/server/core/trigger/TriggerSpecCache.java:211-215 | an item modifying the trigger attribute with new specifications (none of them the id string) leaves the cache unchanged |
| `TriggerSpecCache.TriggerSpecCache.constructor` | core/src/main/java/org/apache/directory/server/core/trigger/TriggerSpecCache.java:78-107 | a new cache holds the given parser and no subentries |
| `TriggerSpecCache.TriggerSpecCache.SubentryAdded` | core/src/main/java/org/apache/directory/server/core/trigger/TriggerSpecCache.java:160-190 | the loop builds the parsed list and the map becomes `Added` of the old map |
| `TriggerSpecCache.TriggerSpecCache.SubentryDeleted` | core/src/main/java/org/apache/directory/server/core/trigger/TriggerSpecCache.java:193-201 | the map becomes `Deleted` of the old map |
| `TriggerSpecCache.TriggerSpecCache.SubentryModified` | core/src/main/java/org/apache/directory/server/core/trigger/TriggerSpecCache.java:204-221 | the loop over the items computes the test, and the map becomes `ModifiedByItems` of the old map |
| `TriggerSpecCache.TriggerSpecCache.SubentryModifiedByContext` | core/src/main/java/org/apache/directory/server/core/trigger/TriggerSpecCache.java:224-236 | the map becomes `ModifiedByContext` of the old map |
| `TriggerSpecCache.TriggerSpecCache.GetSubentryTriggerSpecs` | core/src/main/java/org/apache/directory/server/core/trigger/TriggerSpecCache.java:239-247 | returns the stored list, or the empty list for an unknown name or a stored null, and changes nothing |
| `TriggerSpecCache.TriggerSpecCache.SubentryRenamed` | core/src/main/java/org/apache/directory/server/core/trigger/TriggerSpecCache.java:250-253 | the map becomes `Renamed` of the old map |
| `AuthorizationDataAdData.Action` | kerberos-codec/src/main/java/org/apache/directory/shared/kerberos/codec/authorizationData/actions/AuthorizationDataAdData.java:62-97 | length 0 is refused first, then a missing value; it stores iff the length is non-zero and bytes are present; on success the ad-data equals the TLV's bytes and the end is allowed; on refusal the container is unchanged |
| `AuthorizationDataAdData.ActionScenarios` | kerberos-codec/src/main/java/org/apache/directory/shared/kerberos/codec/authorizationData/actions/AuthorizationDataAdData.java:69-96 | an octet string holding the byte 0x05 is stored as the ad-data; a zero-length one is refused with EmptyValueNotAllowed |

## Left out

- The BER decoding engine is not part of this model: the TLV parser, the decoding container, the grammars and the driver, with their tag and length framing (section 8.1 of ITU-T X.690). The current TLV is reduced to its length and optional value bytes.
- StoreCRealm.java only forwards a decoded realm. The realm decoding itself lives in AbstractReadRealm, which is not part of this model.
- AdministrativeInterceptor `init` and `getAdministrativePoints` search the directory and their results are unused. `destroy` is empty. `delete`, `move`, `moveAndRename` and `rename` pass the request straight on.
- The calls to the next interceptor are the outcome `Forwarded`. The request contexts, entries and sessions are reduced to the attribute values the decisions read.
- SchemaConstants is not part of this model. The area names and OIDs are those of the Apache Directory schema: OIDs 2.5.23.1 to 2.5.23.6 from X.501, and 1.3.6.1.4.1.18060.0.4.1.5.1 and .2 for the trigger-execution areas. The proofs use only the fact that these identifiers are distinct.
- StringTools is not part of this model. The model's trimming removes leading and trailing spaces only. This is narrower than Java's `String.trim`, which strips every character up to U+0020, so a value such as `autonomousArea` followed by a tab is valid in the source but not in the model. Lower-casing maps ASCII `A`-`Z` only.
- Role values are compared exactly. Any value normalisation that a schema-aware `EntryAttribute.contains` may apply is not modelled. The same holds for the identity test on attribute types, which the model reduces to comparing attribute type names.
- AdministrativeInterceptor.Modify: the source changes the original entry's administrativeRole attribute in place while it replays the modifications, so the changes made before an error (a REPLACE clears the attribute before checking its values) stay in the entry. The model replays on a value and captures only the decision to forward or to raise; the in-place update, including partial updates before an error, is not modelled.
- AddRolesCharacterised, RemoveRolesCharacterised, ReplaceRole: a modification's values are a sequence, while the source's attribute holds a set. Repeated values therefore never reach the source's loops, and the conditions these lemmas state about a value "not repeated" or "pairwise distinct" describe inputs the source can receive only if value normalisation makes two values equal. That normalisation is not modelled.
- AddToAbsentRole: with no values, the source stores a null value. The model stores no value, since a null never matches any later string check.
- TriggerSpecCache: the constructor's nexus search and `initialize` are left out, so the cache starts empty. The trigger specification parser is a parameter. Subentry names are the strings of their normalised DNs. Attribute ids are looked up exactly, whatever case-insensitivity an `Attributes` implementation has. A modification item keeps only its attribute id and values, not its operation.
- TriggerSpecCache.TriggerSpecCache.GetSubentryTriggerSpecs: the unmodifiable view the source returns is modelled as an immutable sequence copy. Aliasing between the view and the stored list is not modelled.
- AuthorizationDataAdData: AuthorizationData's list of entries is reduced to the ad-data of its current entry. The byte array is stored as a value, so aliasing with the TLV's buffer is not modelled.
- Logging, I18n messages and `StringTools.dumpBytes` are diagnostics only.
- The interfaces and stubs around the core (OperationContext, NextInterceptor, SyntaxRegistryMonitor, DitStructureRuleSynchronizer, DeleteOperationContext, ComparatorRegistryMonitorAdapter) have no behaviour to model.
