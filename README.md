# exchange-offline-address-book-to-google-contacts, modelled in Dafny

The repository keeps the phone numbers of a company's Exchange offline
address book (the "OAB") in step with a user's Google contacts.  It holds two
programs:

- `oab2google.rb` loads the OAB and prunes its phone fields.  It takes the
  Google contacts feed and decodes every entry into a `Contact` with a status
  (`new`, `keep`, `update`, `delete`, `strip`).  Each OAB record with an
  address in the Exchange domain is merged into its contact: the company
  organisation, the work numbers, the group memberships and the name.  Each
  merged contact is then saved and counted, and the run stops after the
  configured number of saves.
- `import.rb` is the older importer.  It shapes every OAB record into an
  address, cleaned numbers and a reordered name, and accumulates the numbers
  per address.  It merges each record into the contacts feed, keyed by the
  corporate address.  At the end it decides per entry whether to delete,
  insert, update, keep or drop it, and writes the batch.

`ox_patch.rb` adds the `method_missing` accessors on Ox elements that
`oab2google.rb` relies on.  `google_contacts.rb` adds memoising accessors on
Nokogiri elements, including a state kept in a `rel="oab"` link.

The model works on XML as a value tree (`Xml.XNode`):
- An element keeps its raw, prefixed name.
- Ox compares that raw name.
- Nokogiri's `name` is the local part of it (`Xml.LocalName`).

Objects that the source changes in place are classes with `modifies` clauses:
- `OabContact.Contact`;
- `OabIndex.Contacts`;
- `ImportContacts.GoogleContacts`;
- `GContacts.XElement`.

Each of their methods is proved equal to a function on values, and the
properties are proved about those functions.  What the libraries compute
(Phonelib, Phony, serialisation, the clock of the configuration) enters as
function-typed parameters.  Every `raise`, and every dereference of a
missing value that would crash, is a `Failure` of a `Result`.

Modules, one file each:

| module | models |
|---|---|
| Util | Ruby's `select`, `detect`, `uniq`, `sort`, `strip`, `downcase` on sequences and strings |
| Xml | the XML tree, Ox `text`, Nokogiri `inner_text` and local names |
| OxPatch | ox_patch.rb |
| Oab | the phone-field constants, `EXCHANGE_DOMAIN`, `normalize` |
| OabStatus | `Contact#status=` |
| OabDecode | `Contact#initialize` |
| OabMerge | `Contact#merge` and `Contact#save` on values |
| OabContact | the `Contact` object: `status=`, `merge`, `save` in place |
| OabIndex | `Contacts` (the index of the feed by work address) |
| OabPrune | `ExchangeOAB#initialize` (the pruning of the phone fields) |
| OabMain | the main loop of oab2google.rb |
| ImportPhone | `telephone` and `label` |
| ImportGoogle | `corp_email` and the index of the feed |
| ImportMerge | the entry edits of `GoogleContacts#merge` |
| ImportBook | `GoogleContacts#merge` on values |
| ImportSave | `GoogleContacts#save` on values |
| ImportContacts | the `GoogleContacts` object: `initialize`, `merge`, `save` in place |
| ImportOab | `OAB#value` and `OAB#each`: the shaping of a record |
| ImportRun | the main loop of import.rb |
| GContacts | google_contacts.rb |

## Model

| member | source | states |
|---|---|---|
| OxPatch.TranslateFirstUnderscore | ox_patch.rb:8 | only the first underscore of a method name becomes a colon; the rest is kept |
| OxPatch.TranslateWithoutUnderscore | ox_patch.rb:8 | a name without an underscore is unchanged |
| OxPatch.BangSelects | ox_patch.rb:10-13 | a name ending in `!` returns exactly the element children named like it without the `!`, with their multiplicities, in order, without consulting the lookup |
| OxPatch.QuestionCatches | ox_patch.rb:15-22 | a name ending in `?` never raises: it answers what the lookup answers for the name without `?`, and `false` where the lookup raised NoMethodError |
| OxPatch.OtherDelegates | ox_patch.rb:24 | any other name is delegated with its underscore translated, raising exactly when the lookup does |
| OxPatch.BangOfPrefixed | ox_patch.rb:8-13 | `prefix_local!` selects the children named `prefix:local` |
| OxPatch.BangOfPlain | ox_patch.rb:10-13 | `name!` selects the children named `name` |
| Oab.PhoneFieldsDistinct | oab2google.rb:77-79 | the five phone fields are distinct: the three primary ones, then the two assistant ones |
| Oab.PrimaryNotAssistant | oab2google.rb:77-78 | no primary field is an assistant field |
| Oab.InExchangeDomainIsSuffix | oab2google.rb:75 | the domain test holds exactly when the address ends in "@" or "." followed by the domain, ignoring ASCII case |
| Oab.SuffixOfInExchangeDomain | oab2google.rb:75 | an address passing the domain test splits into a front, a separator and the domain |
| Oab.InExchangeDomainOfSuffix | oab2google.rb:75 | any front, "@" or ".", and a tail equal to the domain up to case passes the test |
| Oab.AddressInOwnDomain | oab2google.rb:75 | name + "@" + domain passes the domain test |
| Oab.InExchangeDomainIgnoresCase | oab2google.rb:75 | lower-casing the address does not change the test |
| Oab.Normalize | oab2google.rb:81-84 | nil exactly for a number the phone library rejects, otherwise its international form |
| OabStatus.NamesDiffer | oab2google.rb:166-183 | distinct statuses print differently |
| OabStatus.NameHasNoColon | oab2google.rb:167 | a status name is non-empty and has no colon, so a "current:requested" key splits uniquely |
| OabStatus.KeyIs | oab2google.rb:167 | two "current:requested" keys are equal exactly when their pairs are |
| OabStatus.KeyDeterminesPair | oab2google.rb:167 | the key determines the current and the requested status |
| OabStatus.TransitionIsKeyedTable | oab2google.rb:166-183 | the string-keyed `case`, and the same table read as pairs, give the same result, error text included |
| OabStatus.KeyedNoOp | oab2google.rb:170-172 | the two no-op keys match exactly a request of the current status, or `update` of a `new` contact |
| OabStatus.KeyedAlways | oab2google.rb:174-175 | the keys ":strip" and ":delete" match exactly `strip` or `delete` of an unset status |
| OabStatus.KeyedUnlessRemove | oab2google.rb:177-178 | the five remove-sensitive keys match exactly unset to `keep`/`new`, `delete` to `keep`/`update` and `keep` to `update` |
| OabStatus.UpdateTwice | oab2google.rb:166-183 | requesting `update` again after it succeeded changes nothing |
| OabStatus.DeleteOnlyFromUnsetOrDeleted | oab2google.rb:174-183 | `delete` is accepted exactly from an unset or deleted status, and leads to `delete` |
| OabStatus.TransitionKeepsConsistent | oab2google.rb:157-183 | every accepted request other than `strip` keeps the status consistent: under remove unset or `delete`, otherwise set, not `strip`, and `new` only without an edit link |
| OabDecode.NoFields | oab2google.rb:95-97 | a fresh contact has an empty phone list for exactly the five phone fields |
| OabDecode.DecodePrefixFails | oab2google.rb:99-155 | once a prefix of the children raises, decoding the whole entry raises with the same error |
| OabDecode.InitialStatusFromUnset | oab2google.rb:157 | the initial status is the transition from unset: `delete` with an edit link; otherwise `new`, or unset under remove |
| OabDecode.DecodeFieldSucceeds | oab2google.rb:99-155 | one child decodes exactly when it is text or an element the `case` accepts |
| OabDecode.DecodeAllSucceeds | oab2google.rb:99-155 | an entry decodes exactly when every child is acceptable |
| OabDecode.LastAppend | oab2google.rb:99-155 | the last match of a list grown by one is the new element when it matches, otherwise the old last match |
| OabDecode.DecodeWork | oab2google.rb:129-130 | `@work` is the address of the last e-mail child in the Exchange domain |
| OabDecode.DecodeFieldWork | oab2google.rb:129-130 | one step sets `@work` exactly at an e-mail child in the domain |
| OabDecode.DecodeEdit | oab2google.rb:116-117 | `@edit` is the href of the last edit link |
| OabDecode.DecodeFieldEdit | oab2google.rb:110-124 | one step sets `@edit` exactly at an edit link, which has an href |
| OabDecode.DecodeEditPresent | oab2google.rb:116-117 | there is an `@edit` exactly when some child is an edit link |
| OabDecode.DecodeFieldPhoneKeys | oab2google.rb:132-133 | a step adds a phone list only for a phone child labelled with a phone field |
| OabDecode.DecodeFieldPhones | oab2google.rb:132-133 | a step appends the text of a phone child to the list of its label, and no other list changes |
| OabDecode.MapOptFilterSnoc | oab2google.rb:132-133 | mapping over a filtered sequence grown by one element appends at most that element's image |
| OabDecode.MapOptSnoc | oab2google.rb:132-133 | mapping over a sequence grown by one element appends its image |
| OabDecode.DecodePhoneKeys | oab2google.rb:97 | a decoded contact has phone lists for exactly the five phone fields |
| OabDecode.DecodePhoneKind | oab2google.rb:132-133 | the list of a field holds, in order, the texts of the phone children labelled with it |
| OabDecode.DecodePhones | oab2google.rb:97-133 | both facts together, for every phone field |
| OabDecode.DecodeGroups | oab2google.rb:135-136 | `@groups` holds the hrefs of the memberships without a `deleted` flag or with `deleted="false"` |
| OabDecode.DecodeFieldGroups | oab2google.rb:135-136 | a step adds the href of an active membership and nothing else |
| OabDecode.DecodedStatus | oab2google.rb:157 | a decoded entry starts as `delete` exactly when it has an edit link |
| OabMerge.Request | oab2google.rb:166-183 | a status request inside the merge succeeds exactly when the transition table accepts it, and yields its result; a refusal is reported with the offending key |
| OabMerge.KeepIf | oab2google.rb:192-194 | `delete_if` over the children succeeds exactly when none is a text node, whose `name` would raise; the result keeps the children that pass, in order |
| OabMerge.ReviveDeleted | oab2google.rb:187 | a `delete` contact is asked for `keep`, which it becomes unless remove is set; nothing else changes |
| OabMerge.OrgStepResult | oab2google.rb:189-200 | without a matching organisation, the step leaves exactly one organisation child, naming the work group, keeps every other child and requests `update` |
| OabMerge.OrgAppendedMatches | oab2google.rb:192-199 | an organisation appended after children with none is the first organisation and names the work group |
| OabMerge.FirstNamedSkips | oab2google.rb:189 | the first child with a name is found after a prefix without it |
| OabMerge.RemovePhonesResult | oab2google.rb:202-213 | removing the stale numbers succeeds exactly when there is no text child, and no stale number or `update` is accepted; it keeps the non-stale children and requests `update` once any number is stale |
| OabMerge.RemovePhonesKeeps | oab2google.rb:202-213 | every managed phone left carries a number the record lists for its label, and every unmanaged child is kept in order |
| OabMerge.NewNumbers | oab2google.rb:217 | the numbers to add for a field are the record's numbers for it that the decoded contact does not have |
| OabMerge.PhoneElements | oab2google.rb:218-221 | one phone element per new number, in order, labelled with the field |
| OabMerge.FilterPhoneElements | oab2google.rb:218-221 | the phone elements of a field are of that field only |
| OabMerge.AdditionsOfKind | oab2google.rb:216-225 | the additions of one field are exactly the phone elements of its new numbers |
| OabMerge.AdditionsAreBacked | oab2google.rb:216-225 | every added phone is managed and carries a number the record lists for its label |
| OabMerge.AddPhonesResult | oab2google.rb:216-225 | adding numbers appends exactly the additions, and requests `update` when there are any |
| OabMerge.PhoneDiff | oab2google.rb:202-225 | after both phone steps every managed phone is backed by the record, unmanaged children are untouched, and each field holds its kept numbers followed by its new ones |
| OabMerge.GroupStepResult | oab2google.rb:232-258 | the group step drops exactly the memberships its policy names, and requests `update` unless the policy is to change nothing; no child is added |
| OabMerge.AssignWorkNeverAttaches | oab2google.rb:236-245 | when no group is assigned, the step drops starred and my-contacts memberships but never adds the work membership it builds |
| OabMerge.RenameMovesFirstWord | oab2google.rb:262-263 | a display name starting with the surname plus a word moves that first word to the end |
| OabMerge.RenameCases | oab2google.rb:262-263 | the rename either keeps the display name or moves its first word, which starts with the surname |
| OabMerge.RenameSplits | oab2google.rb:263 | the two captures of the pattern are the text up to the first space after the surname and the text after it |
| OabMerge.NameStepResult | oab2google.rb:260-283 | `keep` changes nothing; `new` and `update` replace the title and name elements by the renamed full name, and fail when the record has no display name; any other status raises |
| OabMerge.NameFieldsReplaced | oab2google.rb:266-277 | after the removal and the appends, the name fields are exactly the new ones and the other children are kept in order |
| OabMerge.RequestKeepsConsistent | oab2google.rb:166-183 | an accepted request keeps the status consistent |
| OabMerge.UpdateKeepsLive | oab2google.rb:166-183 | requesting `update` of a live contact keeps it live |
| OabMerge.OrgStepLive | oab2google.rb:189-200 | the organisation step keeps a contact live |
| OabMerge.RemovePhonesLive | oab2google.rb:202-213 | removing stale numbers keeps a contact live |
| OabMerge.AddPhonesLive | oab2google.rb:216-225 | adding numbers keeps a contact live |
| OabMerge.PhoneStageStatus | oab2google.rb:185-225 | the first part of the merge keeps the status consistent and, without remove, never leaves it `delete` |
| OabMerge.MergeKeepsConsistent | oab2google.rb:185-284 | a merge keeps the status consistent |
| OabMerge.MergeKeepsAPhone | oab2google.rb:227-230 | without remove, a merge that does not stop at the empty-phones test leaves a phone child |
| OabMerge.FinishKeepsAPhone | oab2google.rb:232-283 | the group and name steps never remove a phone |
| OabMerge.GroupStepKeeps | oab2google.rb:232-258 | the group step keeps every child that is not a membership |
| OabMerge.NameStepKeeps | oab2google.rb:266-268 | the name step keeps every child that is not a name field |
| OabMerge.SaveOfConsistent | oab2google.rb:290-320 | a consistent contact saves without raising; it sends nothing exactly when `keep`, PUTs only to its edit link, and reports saved unless `keep` or a failed update |
| OabContact.AdditionsGrow | oab2google.rb:216-225 | the additions of a prefix of the fields are no more than those of all fields |
| OabContact.AdditionsSnoc | oab2google.rb:216-225 | the additions of one more field append that field's phone elements |
| OabContact.PhoneElementsSnoc | oab2google.rb:217-224 | the phone elements of one more number append that number's element |
| OabContact.Contact.Decode | oab2google.rb:93-158 | `Contact.new` decodes the children in order; it fails exactly where decoding fails, with the same error, and otherwise holds the node, the decoded fields and the initial status, consistently |
| OabContact.Contact.SetStatus | oab2google.rb:166-183 | `status=` applies the transition table to the current status; a refusal leaves it as it was; the children do not change; consistency is kept for every request but `strip` |
| OabContact.Contact.Merge | oab2google.rb:185-284 | `merge` in place ends in exactly the state the merge function gives, and fails exactly where it fails; consistency is kept |
| OabContact.Contact.MergePhones | oab2google.rb:185-225 | revival, the organisation and both phone steps in place equal the phone stage on values |
| OabContact.Contact.Finish | oab2google.rb:227-284 | the empty-phones test, the group step and the name step in place equal the finish stage on values |
| OabContact.Contact.ReviveAndFixOrganisation | oab2google.rb:187-200 | the revival and the organisation step in place equal their functions composed |
| OabContact.Contact.ApplyGroupsAndNames | oab2google.rb:232-283 | the group step and the name step in place equal their functions composed |
| OabContact.Contact.RemoveStalePhones | oab2google.rb:202-213 | the `delete_if` loop over the children equals the stale-number removal on values |
| OabContact.Contact.AddNewPhones | oab2google.rb:215-225 | the loop over the phone fields equals the addition of numbers on values |
| OabContact.Contact.AddKinds | oab2google.rb:216-225 | the loop appends exactly the additions of the given fields, and requests `update` when there are any |
| OabContact.Contact.AddKind | oab2google.rb:217-224 | one pass of the outer loop extends the appended elements by one field's additions, failing only when the first addition's `update` is refused |
| OabContact.Contact.AppendPhones | oab2google.rb:217-224 | the inner loop appends one phone element per number, failing only when the first one's `update` is refused |
| OabIndex.DecodeEntries | oab2google.rb:330-334 | decoding the entries gives one set of fields per entry |
| OabIndex.DecodeEntriesEach | oab2google.rb:330-334 | each set of fields is what `Contact.new` decodes from its entry |
| OabIndex.DecodeEntriesSucceeds | oab2google.rb:330-334 | the feed decodes exactly when every entry does |
| OabIndex.DecodeEntriesPrefixFails | oab2google.rb:330-334 | once a prefix of the entries fails, the whole feed fails with the same error |
| OabIndex.DecodeEntriesOfEach | oab2google.rb:330-334 | fields decoded entry by entry are the decoded feed |
| OabIndex.DecodeEntriesFirstFailure | oab2google.rb:330-334 | the feed fails with the error of its first entry that fails |
| OabIndex.IndexOfWorks | oab2google.rb:328-334 | the index maps addresses to positions of the feed |
| OabIndex.IndexOfWorksSnoc | oab2google.rb:331-334 | one more entry with a work address sets its lower-cased address to its position; one without changes nothing |
| OabIndex.IndexOfWorksLast | oab2google.rb:328-334 | the keys are exactly the lower-cased work addresses, each mapped to the last entry with it |
| OabIndex.IndexOfWorksKeys | oab2google.rb:328-334 | the keys are exactly the lower-cased work addresses |
| OabIndex.IndexOfWorksSlots | oab2google.rb:328-334 | each key maps to the last entry whose work address lower-cases to it |
| OabIndex.Works | oab2google.rb:331 | the work addresses of the decoded entries, in order |
| OabIndex.ShellDecodes | oab2google.rb:340-348 | the shell entry built for an unknown address decodes, without an edit link or groups, with that address as work address when it is in the domain |
| OabIndex.SelectEntries | oab2google.rb:330 | `entry!` on the root: its children named `entry`, in order |
| OabIndex.IndexedSnoc | oab2google.rb:331-334 | adding a decoded entry under its lower-cased work address keeps the index invariant |
| OabIndex.IndexedIs | oab2google.rb:324-335 | the loaded index has exactly the lower-cased work addresses as keys, each holding the contact decoded from the last entry with that address |
| OabIndex.IndexedKeys | oab2google.rb:324-335 | the keys of the loaded index are exactly the lower-cased work addresses |
| OabIndex.IndexedSlots | oab2google.rb:324-335 | each key holds the contact decoded from the last entry with that address |
| OabIndex.DecodeNext | oab2google.rb:332 | decoding the next entry yields a fresh contact for it, or the error the whole feed fails with |
| OabIndex.DistinctPut | oab2google.rb:331-334 | storing a contact no address holds yet keeps distinct addresses on distinct contacts |
| OabIndex.Contacts.Load | oab2google.rb:324-335 | `Contacts.new` fails exactly when decoding the feed does, with the same error; otherwise it holds fresh, distinct contacts indexed as the index invariant says |
| OabIndex.Contacts.Get | oab2google.rb:338-352 | `contacts[email]` returns the contact under the lower-cased address, or remembers and returns a fresh shell contact for it, decoded with the initial status |
| OabPrune.NormalizeAll | oab2google.rb:544 | one normalisation per number, in order |
| OabPrune.CleanedIs | oab2google.rb:539-548 | a cleaned field holds no number twice, and holds exactly the international forms of its valid numbers |
| OabPrune.DedupInvariant | oab2google.rb:538-551 | whatever the kinds, the loop writes exactly the kinds it visits, no field repeats a number, every kept number is among those seen, and no number is in two fields |
| OabPrune.InSomeCleanedSnoc | oab2google.rb:538-551 | a number is in a cleaned field of the kinds exactly when it is in one of all but the last or in the last |
| OabPrune.DedupSeen | oab2google.rb:549-550 | over distinct kinds, `numbers` ends as exactly the numbers of all cleaned fields |
| OabPrune.DedupFirstHolder | oab2google.rb:538-551 | over distinct kinds, every kind is written, and a number stays in a field exactly when that field is the first whose cleaned value holds it |
| OabPrune.FirstHolderSnoc | oab2google.rb:549 | being the first holder among the kinds is being it among all but the last, or, for the last, being in its cleaned value and in no earlier one |
| OabPrune.FieldsOf | oab2google.rb:555-557 | one list of numbers per kind, in order |
| OabPrune.FlattenFieldsOf | oab2google.rb:555-558 | the flattened fields hold exactly the numbers of the listed kinds |
| OabPrune.PerRecordPrimary | oab2google.rb:554-557 | one flattened list of primary numbers per record |
| OabPrune.PerRecordPrimaryIs | oab2google.rb:554-558 | the flattened lists hold exactly the primary numbers of the records |
| OabPrune.PrimaryNumbers | oab2google.rb:554-558 | `primary_numbers` has no duplicates and holds exactly the primary numbers of all records |
| OabPrune.DropPrimaryIs | oab2google.rb:561-563 | the listed fields lose the primary numbers, the other fields, the address and the names are kept |
| OabPrune.HasNumbersIs | oab2google.rb:566 | a record is kept exactly when some phone field is non-empty |
| OabPrune.DedupAll | oab2google.rb:536-552 | one record out per record in |
| OabPrune.DedupAllAt | oab2google.rb:536-552 | the first loop handles every record on its own |
| OabPrune.DropPrimaryAll | oab2google.rb:560-564 | one record out per record in |
| OabPrune.DropPrimaryAllAt | oab2google.rb:560-564 | the second loop handles every record on its own |
| OabPrune.DedupRecordSelfDisjoint | oab2google.rb:538-551 | after the first loop no number is in two phone fields of a record, and none repeats in a field |
| OabPrune.DedupRecordFirstHolder | oab2google.rb:538-551 | after the first loop, each phone field holds exactly the numbers for which it is the first holder in field order |
| OabPrune.DropPrimaryKeepsSelfDisjoint | oab2google.rb:560-564 | removing the primary numbers keeps a record self-disjoint |
| OabPrune.PrunedIs | oab2google.rb:536-566 | the pass keeps, in order, the records with a number left; each kept record is self-disjoint and no assistant field holds a primary number |
| OabPrune.PrunedKeepsPrimary | oab2google.rb:536-566 | every kept record has a number, and is an input record's address and names with that record's pruned fields |
| OabPrune.KeptRecordFrom | oab2google.rb:536-566 | each kept record comes from an input record, with its address and names |
| OabPrune.DedupFields | oab2google.rb:538-551 | the loop over one record's phone fields ends with the fields and `numbers` of the dedup function |
| OabPrune.DropPrimaryFields | oab2google.rb:561-563 | the loop over one record's assistant fields ends with the record the drop function gives |
| OabPrune.DedupBook | oab2google.rb:536-552 | the first loop over the records gives the deduplicated book |
| OabPrune.DropPrimaryBook | oab2google.rb:560-564 | the second loop over the records gives the book without primary numbers in assistant fields |
| OabPrune.Prune | oab2google.rb:536-566 | the whole pass in place gives the pruned book |
| OabMain.SaveDeletesEdit | oab2google.rb:304-308 | a DELETE that `save` issues goes to the contact's own edit link |
| OabMain.StepIsLocal | oab2google.rb:579-591 | one record's turn changes at most the contact under its lower-cased address |
| OabMain.StepIndex | oab2google.rb:582-585 | a turn that goes ahead has a record address and changes only the contact under it |
| OabMain.StepDeletes | oab2google.rb:582-591 | a DELETE issued in a turn goes to the edit link of the contact the record names, which was already in the index |
| OabMain.StepSavesCleanly | oab2google.rb:290-312 | from consistent statuses a turn never reaches the `raise` of `save`, and leaves the statuses consistent |
| OabMain.RestOfSkips | oab2google.rb:578-581 | when every record is skipped the loop ends with nothing sent and nothing saved |
| OabMain.RestCounts | oab2google.rb:578-591 | requests issued are never taken back, and each record adds at most one save |
| OabMain.RestWithinLimit | oab2google.rb:587-589 | with a limit the loop stops once the save count reaches it, or after the first save for a limit below one |
| OabMain.RestTouchesOnlySources | oab2google.rb:578-591 | a finished loop drops no contact, adds only contacts that records name and leaves every other contact as it was |
| OabMain.RestKeepsFields | oab2google.rb:578-591 | every contact keeps its decoded fields, and an added one has no edit link |
| OabMain.RestDeletesOnlySources | oab2google.rb:578-591 | every DELETE goes to the edit link of an indexed contact that some record names |
| OabMain.RestDeletesWent | oab2google.rb:579-591 | when the first record's turn goes ahead, the DELETEs of the rest of the loop still go only to indexed contacts that records name |
| OabMain.RestSavesCleanly | oab2google.rb:578-591 | from consistent statuses the loop never fails inside `save` |
| OabMain.RunUnderRemove | oab2google.rb:580 | under the remove option the loop changes and sends nothing |
| OabMain.RunWithinLimit | oab2google.rb:578-591 | the save count is at most the number of records, and within the configured limit |
| OabMain.RunTouchesOnlySources | oab2google.rb:578-591 | the whole loop drops no contact, adds only named ones without edit link, keeps every decoded field, and deletes only contacts some record names |
| OabMain.RunSavesCleanly | oab2google.rb:578-591 | from consistent statuses the loop never fails inside `save` |
| OabMain.StepOfTurn | oab2google.rb:582-585 | a record with a domain address gets the turn on its looked-up contact, whose entry the turn replaces |
| OabMain.MergeAndSave | oab2google.rb:584-588 | `merge` then `save` on a contact object fails exactly when the turn on its value does, and otherwise leaves the contact in the turn's state and reports its save |
| OabMain.TurnAt | oab2google.rb:584-588 | the turn on an indexed contact agrees with the turn on values and changes only that contact of the index |
| OabMain.LookUp | oab2google.rb:338-352 | `contacts[email]` on the objects returns the contact the value lookup gives, stored under the lower-cased address, and changes nothing else |
| OabMain.ProcessAddress | oab2google.rb:582-588 | a record with a domain address: the look-up and the turn on objects agree with their values, replacing only that contact's entry |
| OabMain.Process | oab2google.rb:579-591 | one pass of the loop body on the objects agrees with the step on values: a failure, a skip that changes nothing, or the new index and the save |
| OabMain.Sync | oab2google.rb:578-591 | the loop on the objects agrees with the run on values: the same requests, save count and error, and on finishing the same index |
| OabMain.SyncOne | oab2google.rb:579-591 | one record of the loop on the objects takes the same turn as the run on values, and either stops with the run's outcome or leaves the rest of the run to go |
| ImportPhone.RewrittenCountryCode | import.rb:39-42 | a number starting with `31` becomes `+31` and the rest |
| ImportPhone.RewrittenPlus | import.rb:40-42 | a number starting with `+` is left as it is |
| ImportPhone.RewrittenDoubleZero | import.rb:42 | a leading `00` becomes `+` |
| ImportPhone.RewrittenTrunk | import.rb:41-42 | a trunk `0` followed by a non-zero digit becomes `+31` |
| ImportPhone.RewrittenOther | import.rb:39-42 | a number starting with none of `31`, `+` and `0` is left as it is |
| ImportPhone.RewrittenIdempotent | import.rb:38-42 | rewriting a rewritten number changes nothing |
| ImportPhone.Telephone | import.rb:37-46 | `telephone` gives a number exactly when Phony finds the rewritten number plausible, and then the international format of its normalisation |
| ImportPhone.Label | import.rb:48-53 | `label` has a value exactly when `telephone` does |
| ImportPhone.LabelIsPrefixOrMobile | import.rb:48-53 | the label is the prefix, or the prefix and ` mobile` exactly when the number splits as a Dutch mobile number |
| ImportGoogle.LowerAll | import.rb:158 | every address lower-cased, in order |
| ImportGoogle.CorpEmailIsFirst | import.rb:157-159 | `corp_email` is the first lower-cased address in the domain, and is nil exactly when no address is in the domain |
| ImportGoogle.Indexed | import.rb:88-99 | every index entry points at a kept entry |
| ImportGoogle.IndexedKeeps | import.rb:89-98 | the kept entries are the feed without the entries that have no domain address, in order |
| ImportGoogle.IndexedKeys | import.rb:89-93 | the index keys are exactly the corporate addresses of the entries |
| ImportGoogle.IndexedSlots | import.rb:89-93 | each key points at an entry with that corporate address, and no later kept entry has it |
| ImportMerge.Relabel | import.rb:181 | `n['label'] = …` keeps the element's name and children and sets the label |
| ImportMerge.Remove | import.rb:182 | `numbers.delete(number)` removes every copy of the number and nothing else |
| ImportMerge.MatchedSnoc | import.rb:176-178 | a number is matched by one more child exactly when it was already, or that child is a phone whose `telephone` is the number |
| ImportMerge.DiffRest | import.rb:175-189 | the numbers left to add are exactly the record's numbers that no existing phone matches |
| ImportMerge.DiffRestNoDup | import.rb:175-189 | distinct record numbers leave distinct numbers to add |
| ImportMerge.DiffKeepsOthers | import.rb:176-189 | the phone loop leaves every child that is not a phone, in order |
| ImportMerge.DiffPhonesFrom | import.rb:176-189 | every phone left is one of the record's numbers, or an existing phone whose label does not contain `work` |
| ImportMerge.DiffKeepsUnmatched | import.rb:183-188 | an existing phone that is not work-labelled and not one of the record's numbers is kept |
| ImportMerge.DiffRelabels | import.rb:178-182 | every matched number has a phone with that number carrying its work label |
| ImportMerge.PhoneDiffStops | import.rb:176-189 | once a prefix of the children fails (`label` raising on a matched number), the loop fails with that error |
| ImportMerge.NewPhones | import.rb:192-197 | one phone element per remaining number |
| ImportMerge.NewPhonesAre | import.rb:192-197 | the additions succeed exactly when every number has a work label, and are, in order, a phone element per number with that label |
| ImportMerge.NewPhonesStops | import.rb:192-197 | once a prefix of the numbers fails, the whole addition fails with that error |
| ImportMerge.MembershipNode | import.rb:205 | the element built is a membership of the configured group |
| ImportMerge.ForceGroup | import.rb:200-207 | afterwards every membership is of the configured group, there is one, and every child that is not a membership is kept |
| ImportMerge.NameNode | import.rb:212-216 | the element built is a `gd:name` |
| ImportMerge.WithName | import.rb:210-218 | afterwards there is a `gd:name`; the children change exactly when there was none; no child is lost |
| ImportMerge.MergeEntry | import.rb:170-218 | merging a found entry keeps its name and attributes |
| ImportMerge.MergeEntryCarriesNumbers | import.rb:175-197 | after the merge every record number is on a phone with its work label, relabelled or added |
| ImportMerge.MergeEntryGroupAndName | import.rb:199-218 | after the merge every membership is of the configured group, there is one, and there is a `gd:name` |
| ImportMerge.OrgName | import.rb:229 | the organisation name is the prefix of the domain before its first dot: it holds no dot and is followed by a dot unless it is the whole domain |
| ImportMerge.KindNode | import.rb:226 | the new entry's `category` |
| ImportMerge.TitleNode | import.rb:227 | the new entry's `title` |
| ImportMerge.OrgNode | import.rb:228-230 | the new entry's `gd:organization` |
| ImportMerge.AddressNode | import.rb:231 | the new entry's `gd:email` carries the record's address |
| ImportMerge.NewEntry | import.rb:220-242 | the new entry is built exactly when every number has a work label, and is an entry |
| ImportMerge.EntryHeadKinds | import.rb:225-231 | the head of a new entry has no phone, no membership, no `gd:name`, and just the record's `gd:email` |
| ImportMerge.NewEntryCarries | import.rb:224-242 | a new entry carries just the record's address, its phones in order, one membership of the configured group and the record's name |
| ImportBook.Merge | import.rb:161-244 | a record without an address changes nothing; otherwise the index is kept, every indexed position still holds an element, and the address has a status |
| ImportBook.Snapshot | import.rb:172 | the snapshot kept for a found entry: the stored one, else the serialisation of the entry before the merge edits it (the corrected reading, see Findings) |
| ImportBook.SnapshotAsWritten | import.rb:172 | as written, a nil snapshot stays nil, since `to_xml` on the record's `OpenStruct` reads as nil |
| ImportBook.MergeFound | import.rb:169-218 | a found entry: the merge fails exactly when the entry merge does; otherwise only that entry changes, into the merged one, and the status becomes `update`, with the first snapshot kept |
| ImportBook.MergeInserts | import.rb:220-243 | an unfound address with numbers: success exactly when every number has a work label; then one entry is appended with the address, one phone per number, the group membership, and the status becomes `insert` |
| ImportBook.MergeNoNumbers | import.rb:161-244 | an unfound address without numbers changes the feed not at all and leaves its status as it was |
| ImportBook.MergeOtherStatus | import.rb:164-166 | a merge touches the status of its own address only |
| ImportBook.MergeSnapshotFirst | import.rb:172 | a second merge of a found address keeps the snapshot the first one stored |
| ImportBook.MergeTwiceAppendsTwice | import.rb:220-243 | the new entry is not indexed, so merging the same unseen address twice appends two equal entries |
| ImportSave.ResolveCases | import.rb:268-281 | the action chosen per entry: `delete` exactly when the address has no status, the entry no phone, or the status says delete; `keep` for an update whose snapshot is unchanged or a kept status; `update`, `insert` and `ignore` otherwise as stored |
| ImportSave.Tally | import.rb:285-334 | every action but `keep` adds one to exactly one counter |
| ImportSave.WithSelfId | import.rb:288 | the id rewrite keeps the number of children, and succeeds exactly when the entry has both a self link and an id |
| ImportSave.WithSelfIdSets | import.rb:288 | the first id child comes to hold the self link's href, and every other child is kept |
| ImportSave.BatchTags | import.rb:291-320 | the batch tags are a `batch:id` reading `verb-id` and a `batch:operation` of that type |
| ImportSave.AsWrittenNeverKeeps | import.rb:172 | as written, an entry merged as found resolves to `update` (or `delete` without phones), never to `keep` |
| ImportSave.SnapshotKeepsUnchanged | import.rb:280 | with the corrected snapshot, an entry with phones is kept exactly when its serialisation is the one before its first merge, so an entry the merge left as it was is kept |
| ImportSave.SaveEntry | import.rb:285-334 | one entry gives at most one entry back, none exactly for `ignore`, with the same name and attributes |
| ImportSave.SaveEntryFails | import.rb:252-334 | an entry fails to save exactly when its id cannot be rewritten or its branch calls `action` while `action` raises on its misspelt `retrurn` (online, no dry run, filter empty or equal to the verb) |
| ImportSave.SaveEntryDeletes | import.rb:286-298 | a deleted entry keeps only its id children and the batch tags, and an id holding the self link's href |
| ImportSave.SaveEntryTags | import.rb:291-320 | in batch mode a deleted, inserted or updated entry ends with the batch tags of its verb |
| ImportSave.SaveAllStops | import.rb:265-335 | once a prefix of the entries fails (`throw` for an entry without a corporate address), the loop fails with that error |
| ImportSave.TalliedSnoc | import.rb:285-334 | counting one more action keeps the counters equal to the actions taken |
| ImportSave.AppendEntries | import.rb:265-335 | appending saved entries keeps the non-entries and adds their number of entries |
| ImportSave.EntryBalanced | import.rb:285-334 | one entry kept or dropped keeps the per-entry balance |
| ImportSave.SaveStepBalance | import.rb:265-335 | each step of the loop keeps the balance of entries, counters and actions |
| ImportSave.BalancedSnoc | import.rb:265-335 | balanced steps compose over one more entry |
| ImportSave.SaveAllBalance | import.rb:265-335 | the whole loop is balanced: every entry is counted once, by the action it got |
| ImportSave.ByAction | import.rb:339-345 | filtering by action keeps exactly the non-entries and the entries whose batch operation is the configured one |
| ImportSave.CappedEntries | import.rb:347-349 | the cap keeps the first hundred entries (or all, when fewer) |
| ImportSave.CappedOthers | import.rb:347-349 | the cap keeps every non-entry |
| ImportSave.CappedWithin | import.rb:347-349 | the cap only removes |
| ImportSave.SaveCounts | import.rb:260-335 | outside batch mode, the entries written plus those retained are the feed's entries, and the non-entries are those of the feed after the unlinking |
| ImportSave.SaveAllOnlyIgnores | import.rb:252-334 | in an online non-batch run without dry run or filter, a pass that gets through took no action but `ignore` |
| ImportSave.SaveDefaultRun | import.rb:252-335 | such a run saves at all only when nothing is deleted, inserted or updated: every entry is retained and unlinked |
| ImportSave.SaveBatch | import.rb:338-349 | in batch mode at most a hundred entries are written, all of the configured action when one is set |
| ImportContacts.Work | import.rb:90-91 | the address used as key exists exactly when `corp_email` finds one |
| ImportContacts.IdText | import.rb:76-80 | `xmlns:id/text()` of one entry: nil exactly when no `id` child holds text, else the first text of the first one that does |
| ImportContacts.GroupHref | import.rb:76-80 | the group is the id text of the first group entry that the option picks (the Coworkers system group when unset, else by title) and that has id text; nil exactly when no picked entry has one |
| ImportContacts.DiffPhones | import.rb:175-189 | the loop over the phone children gives the phone diff on values |
| ImportContacts.AddPhones | import.rb:192-197 | the loop over the remaining numbers gives the new phones on values |
| ImportContacts.EditEntry | import.rb:170-218 | the in-place edit of a found entry gives the entry merge on values |
| ImportContacts.BuildEntry | import.rb:220-242 | the builder gives the new entry on values |
| ImportContacts.GoogleContacts.constructor | import.rb:88-99 | `GoogleContacts.new` keeps the indexed entries and the index of corporate addresses, with no status yet |
| ImportContacts.GoogleContacts.Merge | import.rb:161-244 | `merge` in place ends in the state the merge function gives, or reports its error |
| ImportContacts.GoogleContacts.MergeFound | import.rb:169-218 | a found address: the entry is replaced by the merged one and the status marked `update` with the first snapshot, or the error is reported |
| ImportContacts.GoogleContacts.MergeNew | import.rb:220-243 | an unseen address with numbers: the new entry is appended and the status marked `insert`, or the error is reported |
| ImportContacts.GoogleContacts.SaveEntries | import.rb:265-335 | the loop over the entries in place gives the feed, status and counters of the save loop on values |
| ImportContacts.GoogleContacts.Save | import.rb:260-354 | `save` in place gives the report of the save function: its counters, feed and status, or its error |
| ImportContacts.KeepEntries | import.rb:263 | the unlinking loop keeps exactly the feed's entries |
| ImportContacts.KeepAction | import.rb:339-345 | the loop keeps the entries of the configured action |
| ImportContacts.CapOne | import.rb:347-349 | one child of the capping loop is kept exactly when the cap over the children so far keeps it, and the entry count follows |
| ImportContacts.Cap | import.rb:347-349 | the loop keeps the capped feed |
| ImportOab.Prop | import.rb:417-421 | a record property is present exactly when the record has it |
| ImportOab.Value | import.rb:389-391 | `value` is the first element of a present, non-empty property, and the default otherwise |
| ImportOab.RawNumbers | import.rb:418 | the raw numbers are exactly the values of the five telephone properties the record has |
| ImportOab.FormattedMembers | import.rb:435 | the formatted list holds exactly the kept values of the raw numbers |
| ImportOab.KeptMembers | import.rb:435 | a kept value is exactly a non-blank result of `telephone` on a raw number |
| ImportOab.CleanNumbersAre | import.rb:435 | the numbers are sorted, without duplicates, and are exactly the non-blank `telephone` results of the raw numbers |
| ImportOab.FallbackName | import.rb:421 | the fallback display name is the address before its first `@`, each `.` in it a space |
| ImportOab.CommaFamilyKeeps | import.rb:424 | the first rewrite changes nothing when the name does not contain the surname |
| ImportOab.MarkFamilyKeeps | import.rb:425 | the second rewrite changes nothing when the name does not contain the surname |
| ImportOab.ReorderedKeeps | import.rb:424-429 | a display name that does not contain the surname is kept |
| ImportOab.CommaFamilyLeading | import.rb:424 | a name starting with the surname and a space gets a comma after the surname |
| ImportOab.SwappedLeading | import.rb:427 | splitting at the first comma, stripping and reversing puts the given part first |
| ImportOab.ReorderedSurnameFirst | import.rb:424-429 | a display name of surname, space and given part becomes the given part, a space and the surname |
| ImportOab.Shape | import.rb:415-437 | shaping a record fails exactly when it has no address, since the fallback name is computed from it regardless |
| ImportOab.ShapeCarries | import.rb:416-435 | a shaped record holds the stripped address, the first given name and surname, and exactly the non-blank `telephone` results of its telephone values and phone-like postal codes, sorted without duplicates |
| ImportOab.ShapeFallback | import.rb:421-429 | without a display name the full name is the address's local part with dots as spaces, reordered around the surname |
| ImportOab.AddPostalPhones | import.rb:431-434 | the loop appends the postal codes that look like phone numbers |
| ImportOab.FormatNumbers | import.rb:435 | the loop gives the formatted list |
| ImportOab.ShapeRecord | import.rb:415-437 | the in-place shaping of one record gives the shape function's result |
| ImportRun.AccSnoc | import.rb:451-452 | one more record appends its numbers under its lower-cased address |
| ImportRun.AccSeen | import.rb:449-453 | the accumulated numbers of an address are those of every record so far with that address |
| ImportRun.SeenMembers | import.rb:449-453 | a number is accumulated under an address exactly when some record so far with that address has it |
| ImportRun.HandedNumbers | import.rb:450-454 | the record handed to `merge` keeps its address and names, and its numbers are, sorted and once each, the numbers of every record so far with its address |
| ImportRun.Run | import.rb:448-455 | a successful loop shapes every record |
| ImportRun.RunStops | import.rb:448-455 | once a prefix of the records fails, the loop fails with that error |
| ImportRun.RunSnoc | import.rb:450-455 | one more record is shaped, handed with its accumulated numbers to `merge`, and either fails the loop or moves the book on |
| ImportRun.RunShapes | import.rb:450 | every record up to a successful point is shaped, in order |
| ImportRun.RunLinked | import.rb:450-455 | the loop keeps every indexed position on an element of the feed |
| ImportRun.Start | import.rb:88-99 | the starting book is linked |
| ImportRun.ImportedNeedsAddresses | import.rb:448-456 | a run that completes had an address on every record |
| ImportRun.MergeAll | import.rb:449-455 | the loop on the importer object agrees with the loop on values, or reports its error |
| ImportRun.Import | import.rb:442-456 | no group found is an error; otherwise the run with that group's href gives the report of the whole run on values, or its error |
| ImportRun.ImportFeed | import.rb:442-456 | building the importer, the loop and `save` give the report of the whole run on values, or its error |
| GContacts.AfterHashIsLastPart | google_contacts.rb:9 | `sub(/.*#/, '')` leaves the part after the last `#`, or the whole text without one |
| GContacts.KindIs | google_contacts.rb:4-12 | `category` fails exactly when no child is a kind category, and otherwise is the part after the last `#` of the first such child's term |
| GContacts.ListIs | google_contacts.rb:14-22 | `contacts` and `groups` succeed exactly on a feed of that kind, holding exactly its entry children; otherwise the `is not a … list` error |
| GContacts.IdIs | google_contacts.rb:24-27 | `id` on a non-entry is the `is not a contact or group` error, and fails on an entry exactly when it has no id child; otherwise the first id child's text |
| GContacts.EmailsAre | google_contacts.rb:30-34 | `email_addresses` succeeds exactly on an entry whose parent is a contacts list, and gives the address of each email child in order |
| GContacts.SplitPartitions | google_contacts.rb:35-40 | the work and private addresses partition the addresses: each address lands in exactly one according to the expression, with its multiplicity |
| GContacts.WithLink | google_contacts.rb:54-64 | the entry's state link: the first `oab` link, or one appended when there is none, with nothing else changed |
| GContacts.SetHref | google_contacts.rb:78 | setting `href` on one child changes that attribute and no other child |
| GContacts.StateMove | google_contacts.rb:71-82 | a request equal to the current state stays; a change sets the href to the request; a refusal carries `current:request` |
| GContacts.StateMoveIsStatusTable | google_contacts.rb:71-82 | the state setter on links and the contact status setter follow the same table of transitions |
| GContacts.WithLinkKeeps | google_contacts.rb:54-64 | adding the state link changes neither the category, the lists, the id nor the addresses |
| GContacts.SetHrefKeeps | google_contacts.rb:78 | setting the state changes none of them either, and the link stays where it was |
| GContacts.XElement.constructor | google_contacts.rb:3 | a wrapped element starts with no memo |
| GContacts.XElement.Category | google_contacts.rb:4-12 | `category` returns the kind of the element, remembering it |
| GContacts.XElement.Contacts | google_contacts.rb:14-17 | `contacts` returns the contacts list of the element, remembering it |
| GContacts.XElement.Groups | google_contacts.rb:19-22 | `groups` returns the groups list of the element, remembering it |
| GContacts.XElement.Id | google_contacts.rb:24-27 | `id` returns the id of the entry, remembering it |
| GContacts.XElement.EmailAddresses | google_contacts.rb:30-34 | `email_addresses` returns the addresses of the entry after checking its parent, remembering them |
| GContacts.XElement.WorkEmail | google_contacts.rb:35-37 | `work_email` returns the first answer ever computed, whatever expression is later passed, or the matching addresses |
| GContacts.XElement.PrivateEmail | google_contacts.rb:38-40 | `private_email` returns the first answer ever computed, or the addresses that do not match |
| GContacts.XElement.StateLink | google_contacts.rb:54-64 | `_state` refuses a non-entry, and otherwise finds or appends the state link, appending at most once |
| GContacts.XElement.State | google_contacts.rb:66-69 | `state` is the href of the state link |
| GContacts.XElement.SetState | google_contacts.rb:71-82 | `state=` stays, writes the href of the state link, or raises, as the transition table says |
| GContacts.StateLinkOnce | google_contacts.rb:56-63 | finding the state link a second time appends nothing, and the first time appends at most one |
| GContacts.SetStateReadsBack | google_contacts.rb:71-82 | after setting the state, reading it gives the value set, and setting it again stays |
| GContacts.XElement.WriteHref | google_contacts.rb:78 | `_state['href'] = new_state` writes the href of the remembered state link and keeps the memos valid |
| Util.Compact | oab2google.rb:547 | `compact` keeps exactly the values that are not nil |
| Util.CompactSnoc | oab2google.rb:547 | `compact` keeps the values in order with their repetitions: one more entry adds its value unless nil |
| Util.Uniq | oab2google.rb:548 | `uniq` keeps exactly the members of the list |
| Util.UniqOrder | oab2google.rb:548 | `uniq` keeps first occurrences in input order: of two kept values the earlier occurs first in the input |
| Util.UniqNoDup | oab2google.rb:548 | after `uniq` no value repeats |
| Util.Minus | oab2google.rb:549 | `a - b` keeps exactly the members of `a` that are not in `b` |
| Util.MinusSnoc | oab2google.rb:549 | `a - b` keeps the order and repetitions of `a`: one more element is appended exactly when not in `b` |
| Util.Flatten | oab2google.rb:558 | `flatten` holds exactly the members of the inner lists |
| Util.FlattenSnoc | oab2google.rb:558 | `flatten` is the concatenation of the inner lists in order |
| Util.Sort | import.rb:435 | `sort` gives a sorted permutation of its input |
| Util.Strip | import.rb:38 | `strip` is the middle of its input with the white space at either end removed, and leaves none there |
| Util.Detect | google_contacts.rb:6-8 | `detect` finds the first element that satisfies the block, and nil exactly when none does |

## Left out

- OAuth login, token refresh and the HTTP requests of both programs (oab2google.rb:410-516, import.rb:65-155). A PUT's outcome is the `putOk` parameter; the other requests are recorded as the operation they would issue.
- Option parsing, the YAML and JSON configuration, the backup files and `update.xml`: configuration values are plain parameters (`Config`, `Settings`).
- Downloading and decompressing the address book (wget, the MSPack decompressor, import.rb:357-410), and the Exchange reader of oab2google.rb: the records are an input sequence.
- Loading the already pruned cache (oab2google.rb:533-534) and saving it (oab2google.rb:569): only the pruning path is modelled, since the cache holds its result.
- The internals of Phonelib and Phony (`valid?`, `parse`, `international`, `plausible?`, `normalize`, `format`, `split`): they are function-typed parameters.
- XML parsing, serialisation and XPath: documents are value trees, the `to_xml` of a feed entry in import.rb is the `entryXml` parameter, what `Contact#save` sends is the entry itself, and the `.//` searches of import.rb look at the entry's direct children, where the Google feed keeps these elements.
- Photos: the upload in `Contact#save` (oab2google.rb:314-317), and `photo` in import.rb (import.rb:246-250), which reads an undefined `gcontact`; it is only reached when `action('update')` answers true, which it never does.
- The requests of import.rb's `save`: `action` (import.rb:252-258) never answers true. Offline or in a dry run it answers false. Otherwise it raises on its misspelt `retrurn` when the `--action` filter is empty or names the verb, and answers false for any other filter. The model makes `save` fail there (`Retrurn`, ImportSave.SaveEntryFails), so the non-batch `delete`, `post` and `put` are never issued, and a default online run gets through `save` only when every entry is ignored (ImportSave.SaveDefaultRun). The batch POST (import.rb:350) is left out with the other requests; only the action chosen and the entry written are modelled.
- `GoogleAccount#process` (oab2google.rb:444-476): it raises `'to do'` before doing anything.
- The `Groups` class of oab2google.rb (lines 355-408), which fetches the group feed: the hrefs the merge consults are the `groups` parameter of the configuration.
- `phone_numbers`, `work_phones` and `private_phones` (google_contacts.rb:42-52): the file does not parse as given because of their unbalanced parentheses.
- Regular-expression details: the interpolated domain and surname are read as literal text (oab2google.rb:75, 263; import.rb:158, 424-425); upper- and lower-case are ASCII only; `downcase` and `strip` are ASCII. Ruby's `^` and `$` are line anchors, `.` stops at a line break, and `sub`, `gsub` and `=~` therefore act per line; the model reads every value as one line, so it covers values without line breaks only (the prefix rewrite of import.rb:39-42, the postal-code test of import.rb:432, the fallback name of import.rb:421, the surname move of oab2google.rb:263 and the domain tests of oab2google.rb:75 and import.rb:158).
- Logging and the verbose output, including the `to_xml` of an entry in error messages: an error carries the refused transition or the address, not the text.
- OabMain.Sync: when the configured number of saves is reached, `exit` ends the program; the model reports the run as finished there.
- OabMain.Turn: a merge that raises stops the loop with the record's address only; which transition was refused is not kept.
- ImportContacts.GoogleContacts.Merge: after a failure the state of the object is not described (Ruby may have edited the tree before raising).
- ImportRun.MergeAll: after a failure the state of the object is not described, for the same reason.
- GContacts.XElement.EmailAddresses: an element's node is a value, so edits to it are not reflected in its parent's children, and the parent's `contacts` memo is consulted but its contents are not linked to this element.
- GContacts.KindOf: the `:none` fallback of `category` is unreachable, since the `term` of a missing category raises first; the model reports that as `NoCategory`.
- GContacts.EmailsOf: the top element's parent is the document in Nokogiri, on which `contacts` is not defined; the model reports that as `NoContactsParent`.
- ImportSave.WithSelfId: a self link without `href` writes empty text into the id, as Nokogiri's `content = nil` does.
- ImportMerge.NameNode: a missing given or family name is written as empty text.
- ImportRun.MergeOf: its branch for a book that is not linked is never taken (RunLinked), and exists only to make the merge total.

## Findings

| source | as written | input that shows it | evidently intended | confidence | as-written member | corrected member |
|---|---|---|---|---|---|---|
| import.rb:172 | `status.xml = contact.to_xml` serialises the address-book record, an `OpenStruct` without `to_xml`, which reads as nil; so `status.xml == contact.to_xml` at line 280 never holds and no found entry is ever kept | a found entry whose phones, group and name already agree with its record: it is updated again on every run | the snapshot is the feed entry's serialisation before the merge edits it, so an entry the merge leaves as it was is kept | medium, not executed | ImportSave.AsWrittenNeverKeeps | ImportSave.SnapshotKeepsUnchanged |

The merge of the model (`ImportBook.Merge`, `ImportContacts.GoogleContacts.MergeFound`) takes the corrected snapshot (`ImportBook.Snapshot`); `ImportBook.SnapshotAsWritten` is the snapshot as written.
