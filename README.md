# LittleSis core, modelled in Dafny

LittleSis is a database of people and organisations ("entities") and the relationships between
them. This project models the part of the Rails application that decides things without the
database, and proves properties of that model:

- **Entities** (`entity.dfy`, module `EntityModel`):
  - following the chain of merges to the surviving entity;
  - looking an entity up by id while refusing deleted and merged ones;
  - naming an extension by name or by index;
  - turning an entity, an integer or a numeric string into an id;
  - dropping initials from a name;
  - the summary excerpt;
  - mapping extension fields onto display fields;
  - interlocks (the entities two entities are both linked to);
  - trimming a name in place;
  - keeping one address per coordinate pair.
- **Tags** (`tag.dfy`, module `TagModel`):
  - splitting tag ids into ones to add, remove and ignore;
  - the memoised name → tag lookup table;
  - finding tags by name or inside a phrase.
- **Front-end helpers** (`utility.js`, module `Utility`):
  - `range`, `validDate`, `formatIdSelector`, `capitalize`, `entityLink`, `relationshipDetails`;
  - the immutable object helpers `get`, `getIn`, `set`, `setIn`, `delete`, `deleteIn`, `normalize`, `stringifyValues`, `pick`, `omit`, `exists` and `isEmpty`.
  - JavaScript values are a datatype: undefined, null, booleans, numbers, strings and objects.
- **Entity page helpers** (`entities_helper.rb`, module `EntitiesHelper`): the legacy user path,
  the active-tab class, the relationships heading, the section order and the "[+n]" counter.
- **External links** (`external_link.rb`, module `ExternalLinkModel`):
  - the link-type enum and its inverse;
  - which types are editable;
  - URL templates and titles;
  - the two URL regexes, as a small matcher;
  - `parse_id_input`, which rewrites a pasted URL or handle into the stored id.
- **External data** (`external_data.rb`, module `ExternalDataModel`):
  - the dataset enum and its inverse;
  - dataset-name checks;
  - merging a JSON hash into a row's `data`, with Ruby's insertion-ordered `Hash#merge`.
- **OpenSecrets donations** (`os_donation.rb`, module `OsDonationModel`): the FEC cycle id, the
  reference name and the reference URL.

Two supporting modules hold no source behaviour of their own:

- `Strings` is Ruby's and JavaScript's string primitives, for ASCII text: `strip`, `downcase`, `split`, `sub`, `to_i` (for decimal numerals, with Ruby's optional `0d` prefix), `to_s`, and `gsub` with a string pattern. In `gsub` the replacement's backslash escapes are expanded as Ruby does: `\0` and `\&` give the match, `` \` `` and `\'` the text before and after it, `\\` a backslash, `\1`–`\9` nothing, and `\k<name>` raises. `ReplaceAll` is `gsub` with a replacement that has no backslash.
- `Wrappers` holds `Option` and `Result`.

Records that Rails updates in place are classes whose methods say what changes:

- `Entity` (`trim_name_whitespace`);
- `ExternalLink` (`parse_id_input`);
- `ExternalData` (`merge_data`);
- `OsDonation` (`create_fec_cycle_id`);
- `TagClass`, which holds the memoised `Tag.lookup`.

`unique_addresses`, `pick` and `omit` build their result with a loop, so they are methods with loop invariants. Each is proved against a specification function or states its whole result.

## Model

| member | source | states |
|---|---|---|
| EntityModel.HasMerges | app/models/entity.rb:635-637 | an entity has merges exactly when its merged_id is set |
| EntityModel.ResolveMerges | app/models/entity.rb:630-637 | an entity without merges resolves to itself; any success has no merges and, after a hop, comes from the store; a merged id missing from the store is a broken chain |
| EntityModel.ResolveMergesFollowsChain | app/models/entity.rb:630-633 | a resolved entity is reached by following `merged_id` some number of hops |
| EntityModel.ResolveMergesMoreFuel | app/models/entity.rb:630-633 | once resolution succeeds, allowing more hops gives the same entity |
| EntityModel.RankedResolutionTerminates | app/models/entity.rb:630-633 | when merges only point to lower-ranked entities, enough hops never run out |
| EntityModel.FindWithMerges | app/models/entity.rb:622-627 | succeeds exactly for a stored, unmerged, undeleted id, returning that record; absent, or stored unmerged and deleted → RecordNotFound; merged → MergedEntityError carrying the resolved entity, and only a merged record whose merge chain cannot be followed gives the resolver's own error |
| EntityModel.RubyIndex | app/models/entity.rb:272 | Ruby's `Array#[]` with an integer that fits in a C long: defined exactly for -length ≤ i < length, negative indices counting from the end |
| EntityModel.ExtNameOrIdToName | app/models/entity.rb:266-278 | a name succeeds iff it is a known extension name and is returned unchanged; an integer that fits in a C long succeeds iff it indexes a named slot; a larger integer raises RangeError (IndexBeyondLong); anything else raises ArgumentError |
| EntityModel.ExtensionNameRoundTrip | app/models/entity.rb:266-278 | each extension's name, its index and its negative index all map back to that name |
| Strings.ToIDecimalPrefix | app/models/entity.rb:287 | `to_i` skips the `0d`/`0D` radix prefix after an optional minus sign: "0d12" reads as 12, "-0D7" as -7 |
| EntityModel.EntityIdFor | app/models/entity.rb:286-288 | an entity gives its id, an integer itself, a string its `to_i` |
| EntityModel.EntityIdForString | app/models/entity.rb:286-288 | the string form of an id gives back the same id as the integer |
| EntityModel.LongWords | app/models/entity.rb:305 | the selection is never longer than the list |
| EntityModel.LongWordsMembers | app/models/entity.rb:305 | keeps exactly the words longer than one character |
| EntityModel.LongWordsAppend | app/models/entity.rb:305 | selecting from a concatenation selects from each part, so order and repeats are kept |
| EntityModel.LongWordsOne | app/models/entity.rb:305 | a single word is kept exactly when it is longer than one character |
| EntityModel.LongWordsKeepsLong | app/models/entity.rb:305 | a list of long words is kept as it is |
| EntityModel.NameWithoutInitials | app/models/entity.rb:304-306 | the result has no '.'; its words are exactly the words of the name with dots removed that are longer than one character, in order and with repeats; and it is those words joined by single spaces |
| EntityModel.NameWithoutInitialsIdempotent | app/models/entity.rb:304-306 | dropping initials twice is the same as once |
| EntityModel.SummaryExcerpt | app/models/entity.rb:529-538 | nil stays nil; a summary of at most 150 characters is kept; a longer one with a newline in its first 150 characters becomes its first line plus "..."; otherwise it is truncated |
| EntityModel.Entity.TrimNameWhitespace | app/models/entity.rb:667-669 | the name becomes its stripped form; a nil name stays nil |
| EntityModel.TrimTwice | app/models/entity.rb:667-669 | trimming twice leaves the same name as trimming once |
| EntityModel.GenderName | app/models/entity.rb:398-404 | a gender code has a name exactly when it is "1", "2" or "3" |
| EntityModel.MapFieldValues | app/models/entity.rb:397-414 | gender_id becomes gender with its name; party_id becomes party_affiliation, named iff the party is known; other fields pass through unchanged |
| EntityModel.GenderCodes | app/models/entity.rb:398-404 | 1, 2 and 3 are Female, Male and Other; other codes give nil |
| EntityModel.Uniq | app/models/entity.rb:256 | same members as the input, each once |
| EntityModel.Pluck | app/models/entity.rb:255-256 | the targets of the entity's links, optionally limited to a set |
| EntityModel.InterlockIds | app/models/entity.rb:254-257 | exactly the entities other than the two that both are linked to, each once |
| EntityModel.RemoveAll | app/models/entity.rb:256 | removes exactly the listed ids and keeps the rest distinct |
| EntityModel.InterlockIdsSymmetric | app/models/entity.rb:254-257 | the interlocks of (a, b) and (b, a) are the same entities |
| EntityModel.FirstSix | app/models/entity.rb:510 | the first six characters of a coordinate string, or all of a shorter one |
| EntityModel.FirstPerKeyKept | app/models/entity.rb:506-518 | each kept address is an input address with both coordinates present (non-blank) whose coordinate key was not seen before |
| EntityModel.FirstPerKeyFromSuffix | app/models/entity.rb:506-518 | the loop's index-based selection equals selection over the remaining suffix |
| EntityModel.UngeocodedMembers | app/models/entity.rb:506-518 | the trailing addresses are exactly the input addresses with a nil latitude or longitude |
| EntityModel.UniqueAddresses | app/models/entity.rb:506-518 | the result is the first address for each coordinate key among those with both coordinates present, in input order, followed by the addresses with a nil coordinate |
| EntityModel.FirstPerKeyDistinct | app/models/entity.rb:506-518 | no two kept addresses share a coordinate key |
| EntityModel.KeptIsFirstWithKey | app/models/entity.rb:506-518 | each kept address is the first input address with its key |
| EntityModel.FirstPerKeyCovers | app/models/entity.rb:506-518 | every coordinate key of an input address with both coordinates present is represented in the result |
| EntityModel.BlankCoordinateDropped | app/models/entity.rb:509-510 | an address whose coordinate is blank but not nil is in neither list, so it is dropped |
| EntityModel.UniqueAddressesLength | app/models/entity.rb:506-518 | the result is never longer than the input |
| TagModel.ParseUpdateActions | app/models/tag.rb:18-24 | ignore = client ∩ server, add = client − server, remove = server − client |
| TagModel.UpdateActionsPartition | app/models/tag.rb:18-24 | the three sets are pairwise disjoint; add ∪ ignore is the client set and remove ∪ ignore the server set |
| TagModel.Key | app/models/tag.rb:41 | the lookup key is the name, character by character, lowercased and with every '-' turned into a space; so it has the name's length and no '-' |
| TagModel.Store | app/models/tag.rb:41 | Ruby `Hash#store`: the key now maps to the tag; a new key goes to the end, and an existing key keeps its place |
| TagModel.LookupOf | app/models/tag.rb:39-43 | the table lists each key once, and its key list and mapping agree |
| TagModel.LookupOfKeys | app/models/tag.rb:39-43 | every tag's key is in the table, and each entry is a tag stored under its own key |
| TagModel.KeysOfTable | app/models/tag.rb:39-43 | a key is in the table exactly when some tag is filed under it |
| TagModel.FirstOccurrencesAppend | app/models/tag.rb:40-41 | adding a key already seen leaves the first-occurrence order unchanged; a new key goes to the end |
| TagModel.LookupOfKeyOrder | app/models/tag.rb:39-43 | the table's keys are the tags' keys with repeats dropped, each where its first tag stands in database order |
| TagModel.LookupOfLastWins | app/models/tag.rb:39-43 | for tags that share a key, the last one wins |
| TagModel.TagClass.Lookup | app/models/tag.rb:39-43 | the first call builds the table from all tags and memoises it; later calls return the memoised table |
| TagModel.SearchByName | app/models/tag.rb:35-37 | finds a tag iff the downcased query is a key, and returns the tag stored under it |
| TagModel.SearchByNameIgnoresCase | app/models/tag.rb:35-37 | queries that differ only in letter case find the same tag |
| TagModel.SearchByNameFinds | app/models/tag.rb:35-43 | over the lookup table, a query finds a tag iff some tag's key is the downcased query |
| TagModel.SearchByNameMissesHyphen | app/models/tag.rb:35-43 | a query containing '-' never finds a tag, because keys have hyphens turned into spaces |
| TagModel.MatchingKeys | app/models/tag.rb:27-31 | exactly the keys contained in the text, never more than there are keys |
| TagModel.MatchingKeysAppend | app/models/tag.rb:27-31 | matching a concatenation of key lists is matching each part and concatenating: the matches keep the keys' order |
| TagModel.MatchingKeysOne | app/models/tag.rb:27-31 | a single key is kept exactly when the text contains it |
| TagModel.MatchingKeysFollowKeyOrder | app/models/tag.rb:27-31 | two keys that both occur come back in the keys' order, wherever they stand in the phrase |
| TagModel.MatchingKeysDistinct | app/models/tag.rb:27-31 | distinct keys give distinct matches |
| TagModel.SearchByNames | app/models/tag.rb:27-31 | the i-th result is the tag stored under the i-th matching key, so the results follow the table's key order (which `LookupOfKeyOrder` fixes as first-occurrence order of the tags) |
| TagModel.SearchByNamesExact | app/models/tag.rb:27-43 | a tag is returned iff it is the tag stored under its key and that key occurs in the downcased phrase |
| TagModel.SearchByNamesDistinct | app/models/tag.rb:27-43 | no tag is returned twice |
| Utility.Truthy | app/assets/javascripts/utility.js:314 | Boolean(v): undefined and null are falsy, every object is truthy |
| Utility.ToString | app/assets/javascripts/utility.js:344 | String(v): a string is itself, and a number's decimal rendering reads back as the number |
| Utility.Exists | app/assets/javascripts/utility.js:384-386 | every truthy value exists; a value does not exist exactly when it is undefined or null |
| Utility.NatToStringInjective | app/assets/javascripts/utility.js:256-258 | distinct array indices are distinct property names |
| Utility.StringIndexCopyKeys | app/assets/javascripts/utility.js:272 | copying a string's own properties gives one property per index holding that character |
| Utility.Get | app/assets/javascripts/utility.js:255-258 | an object's own property under the key; undefined for a missing key and for anything that is not an object |
| Utility.GetIn | app/assets/javascripts/utility.js:262-268 | no keys give the object itself; one key is `get`; any path into a non-object gives undefined |
| Utility.Set | app/assets/javascripts/utility.js:271-279 | the result is an object holding the value under the key |
| Utility.SetIn | app/assets/javascripts/utility.js:282-296 | no keys give the value itself; otherwise an object holding the first key; one key is `set` |
| Utility.GetInSetIn | app/assets/javascripts/utility.js:263-296 | reading a path after setting it gives the value set |
| Utility.SetFrame | app/assets/javascripts/utility.js:256-279 | setting a key leaves the other keys of a non-string value unchanged |
| Utility.SetInFrame | app/assets/javascripts/utility.js:256-296 | setting a path leaves the other top-level keys unchanged |
| Utility.GetInAppend | app/assets/javascripts/utility.js:263-268 | reading p + q is reading p, then q |
| Utility.GetInSetInBelow | app/assets/javascripts/utility.js:263-296 | below a path that was set, reading gives what is inside the value set |
| Utility.Delete | app/assets/javascripts/utility.js:299-308 | throws iff the argument is undefined or null; on an object, keeps exactly the other keys with their values |
| Utility.DeleteSet | app/assets/javascripts/utility.js:271-308 | deleting a key just added undoes the addition |
| Utility.DeleteIn | app/assets/javascripts/utility.js:311-321 | a falsy parent of the leaf returns the object unchanged; when the parent is an object, the leaf key then reads as undefined |
| Utility.DeleteInRemoves | app/assets/javascripts/utility.js:311-321 | after deleteIn the leaf key reads as undefined, and its sibling keys are unchanged |
| Utility.DeleteInMissing | app/assets/javascripts/utility.js:311-321 | when the parent of the leaf is falsy, the object is returned unchanged |
| Utility.Normalize | app/assets/javascripts/utility.js:324-331 | succeeds iff every record exists, giving an object |
| Utility.NormalizeKeys | app/assets/javascripts/utility.js:324-331 | the result's keys are exactly the records' ids |
| Utility.NormalizeLastWins | app/assets/javascripts/utility.js:324-331 | each id maps to the last record with that id |
| Utility.StringifyValue | app/assets/javascripts/utility.js:344 | a truthy non-boolean becomes its string; the result is a boolean, a string or falsy |
| Utility.StringifyValues | app/assets/javascripts/utility.js:334-349 | throws iff the argument is undefined or null; otherwise the same keys, each value stringified, so every value is a boolean, a string or falsy |
| Utility.StringifyValuesIdempotent | app/assets/javascripts/utility.js:334-349 | stringifying twice is the same as once |
| Utility.StringifyValueSkipsZero | app/assets/javascripts/utility.js:344 | as written, the number 0 exists but is left a number (see Findings) |
| Utility.StringifyExisting | app/assets/javascripts/utility.js:343-344 | corrected: every existing non-boolean becomes its string |
| Utility.StringifyExistingCorrected | app/assets/javascripts/utility.js:343-344 | the corrected version turns 0 into "0" and agrees with the original on truthy values |
| Utility.Pick | app/assets/javascripts/utility.js:359-365 | the result has exactly the listed keys, each with the object's value (undefined when missing) |
| Utility.Omit | app/assets/javascripts/utility.js:374-380 | the result has exactly the object's keys that are not listed, with their values |
| Utility.IsEmpty | app/assets/javascripts/utility.js:395-397 | empty iff not a non-empty string and not an object with keys |
| Utility.IsEmptyAfterSet | app/assets/javascripts/utility.js:271-308 | an object with a key just set is not empty; deleting that key again from {} leaves it empty |
| Utility.RangeWithout | app/assets/javascripts/utility.js:28-35 | strictly increasing; holds exactly the integers below n that are not excluded |
| Utility.Range | app/assets/javascripts/utility.js:28-35 | a RangeError iff x is not a valid array length; otherwise 0..x-1 in increasing order, minus the excluded numbers when an array is given |
| Utility.RangeWithoutNothing | app/assets/javascripts/utility.js:28-35 | with nothing excluded the range is [0, …, n-1] |
| Utility.ValidDate | app/assets/javascripts/utility.js:191-206 | any four digits are a valid date |
| Utility.ValidDateShape | app/assets/javascripts/utility.js:191-206 | an accepted date is four digits or four-two-two characters split by '-' |
| Utility.SplitDate | app/assets/javascripts/utility.js:195 | joining three hyphen-free parts with '-' and splitting them back gives the parts |
| Utility.NumberExceeds | app/assets/javascripts/utility.js:200-201 | `Number(t) > n`: text that is not all digits is NaN and never exceeds; a true comparison means the digits' value exceeds n |
| Utility.ValidDateFields | app/assets/javascripts/utility.js:195-205 | a four-two-two date is accepted iff neither the month exceeds 12 nor the day 31 as numbers |
| Utility.ValidDateAcceptsLetters | app/assets/javascripts/utility.js:196-201 | as written, "2019-ab-cd" is accepted (see Findings) |
| Utility.ValidDateNumeric | app/assets/javascripts/utility.js:191-206 | corrected: accepts only dates the original accepts |
| Utility.ValidDateNumericFields | app/assets/javascripts/utility.js:195-205 | the corrected check accepts a four-two-two date iff all parts are digits, month ≤ 12 and day ≤ 31 |
| Utility.ValidDateNumericRefusesLetters | app/assets/javascripts/utility.js:196-201 | the corrected check refuses "2019-ab-cd" |
| Utility.FormatIdSelector | app/assets/javascripts/utility.js:245-251 | the result starts with '#', is the input or '#' plus the input, and leaves an input starting with '#' alone |
| Utility.FormatIdSelectorIdempotent | app/assets/javascripts/utility.js:245-251 | formatting twice is the same as once |
| Utility.Capitalize | app/assets/javascripts/utility.js:238-243 | same length; the first character is upper-cased and the rest unchanged |
| Utility.CapitalizeIdempotent | app/assets/javascripts/utility.js:238-243 | capitalizing twice is the same as once |
| Utility.EntityLink | app/assets/javascripts/utility.js:10-19 | the link is the person or org path and id, then the name with only its first space turned into '_' |
| Utility.EntityLinkKeepsLaterSpaces | app/assets/javascripts/utility.js:17 | a second space in the name is left as a space in the link |
| Utility.RelationshipDetails | app/assets/javascripts/utility.js:132-189 | throws iff the category is 7 (lobbying, with its own message) or outside 1..12 |
| Utility.RelationshipDetailsDates | app/assets/javascripts/utility.js:132-189 | every category's fields include the start date and the end date |
| Utility.RelationshipDetailsDistinct | app/assets/javascripts/utility.js:132-189 | no category lists the same field twice |
| Utility.RelationshipDetailsCurrent | app/assets/javascripts/utility.js:132-189 | the "Is current?" field is present iff the category is not education |
| EntitiesHelper.LegacyUserPath | app/helpers/entities_helper.rb:11-13 | "/user/" followed by the username |
| EntitiesHelper.LegacyUserPathInjective | app/helpers/entities_helper.rb:11-13 | different usernames give different paths |
| EntitiesHelper.ActiveTab | app/helpers/entities_helper.rb:15-21 | "active" iff the tab is the active one, else "inactive" |
| EntitiesHelper.OtherPositionsAndMembershipsHeading | app/helpers/entities_helper.rb:25-39 | Memberships when there are no other positions; otherwise "Other " exactly when other positions differ from all positions, and " & Memberships" exactly when there are memberships |
| EntitiesHelper.HeadingComposed | app/helpers/entities_helper.rb:25-39 | the heading is an optional "Other ", "Positions" and an optional " & Memberships", or "Memberships" alone |
| EntitiesHelper.SectionOrder | app/helpers/entities_helper.rb:51-77 | 15 sections for a person and 4 for an organisation, both including other positions and staff |
| EntitiesHelper.SectionOrderDistinct | app/helpers/entities_helper.rb:51-77 | no section appears twice |
| EntitiesHelper.ExtraLinksCount | app/helpers/entities_helper.rb:79-82 | empty iff there is at most one link; otherwise "[+…]" |
| EntitiesHelper.ExtraLinksCountReadsBack | app/helpers/entities_helper.rb:79-82 | the number inside the brackets reads back as count − 1 |
| ExternalLinkModel.TypeId | app/models/external_link.rb:13 | each link type's stored integer is the one the enum gives its name |
| ExternalLinkModel.LinkTypeIdsInverse | app/models/external_link.rb:13-14 | LINK_TYPE_IDS and the enum are inverse maps |
| ExternalLinkModel.TypeIdRoundTrip | app/models/external_link.rb:13-14 | LINK_TYPE_IDS maps a type's integer back to its name, and distinct types have distinct integers |
| ExternalLinkModel.Editable | app/models/external_link.rb:17-30 | editable iff the type is wikipedia or twitter |
| ExternalLinkModel.UrlTemplate | app/models/external_link.rb:72-83 | raises TypeError iff the type is the reserved one; otherwise the template head, the "{}" placeholder and the template tail |
| ExternalLinkModel.Url | app/models/external_link.rb:32-34 | the reserved type raises the template's TypeError; any other failure comes from gsub's replacement escapes |
| Strings.Expand | app/models/external_link.rb:33 | the expansion of one replacement can fail only through a `\k` escape |
| Strings.Gsub | app/models/external_link.rb:33 | gsub can fail only through a `\k` escape, and a replacement without a backslash replaces every occurrence as it is |
| Strings.ExpandPlain | app/models/external_link.rb:33 | a replacement without a backslash is inserted as it is |
| Strings.GsubPlain | app/models/entity.rb:305 | gsub with a replacement that has no backslash replaces every occurrence of the pattern, left to right, by the replacement as it is |
| Strings.GsubOnce | app/models/external_link.rb:33 | gsub on a text holding the pattern once, where the pattern's first character occurs nowhere else, is the text with the expanded replacement in the pattern's place |
| ExternalLinkModel.FillTemplate | app/models/external_link.rb:16-34 | gsub of the placeholder in a brace-free template keeps the head and tail and puts the expanded id in place of the one placeholder |
| ExternalLinkModel.TemplatesBraceFree | app/models/external_link.rb:72-83 | no template has a '{' besides its placeholder |
| ExternalLinkModel.UrlShape | app/models/external_link.rb:32-34 | the URL is the template head, the id with its backslash escapes expanded, then the template tail (SEC's query string, nothing for the others); a failing expansion fails the URL; an id without a backslash is inserted as it is |
| ExternalLinkModel.UrlExpandsMatch | app/models/external_link.rb:32-34 | a twitter id "a\\0b" renders as the handle "a{}b": `\0` becomes the matched placeholder |
| ExternalLinkModel.UrlRejectsGroupName | app/models/external_link.rb:32-34 | a twitter id "\\k<x>" makes url raise for an undefined group name "x" |
| ExternalLinkModel.Title | app/models/external_link.rb:36-47 | raises iff the type is reserved; a twitter title is "Twitter @" then the handle |
| ExternalLinkModel.TitleUrlAgree | app/models/external_link.rb:32-47 | title fails only for the reserved type, where url fails with the same error; any other url failure comes from replacement escapes; for an id without a backslash, title and url fail on the same types |
| ExternalLinkModel.Lits | app/models/external_link.rb:19-20 | a literal pattern is one character atom per letter |
| ExternalLinkModel.LineLength | app/models/external_link.rb:19-20 | `.+` stops at the first newline |
| ExternalLinkModel.SpellsLits | app/models/external_link.rb:19-20 | a literal pattern matches its own text |
| ExternalLinkModel.SpellsAppend | app/models/external_link.rb:19-20 | matching concatenates |
| ExternalLinkModel.MatchSpelled | app/models/external_link.rb:19-20 | a fixed part consumes exactly the text it spells |
| ExternalLinkModel.LineLengthAll | app/models/external_link.rb:19-20 | without a newline, `.+` takes the whole rest |
| ExternalLinkModel.MatchTail | app/models/external_link.rb:19-20 | the capture is the rest of the line |
| ExternalLinkModel.MatchOptTaken | app/models/external_link.rb:19-20 | an optional character is consumed when present |
| ExternalLinkModel.MatchOptSkipped | app/models/external_link.rb:19-20 | an optional character is skipped when absent |
| ExternalLinkModel.MatchScheme | app/models/external_link.rb:19-20 | `https?` accepts both http and https |
| ExternalLinkModel.SearchAtStart | app/models/external_link.rb:19-20 | a match at the start is what the unanchored search returns |
| ExternalLinkModel.CaptureAfterScheme | app/models/external_link.rb:19-20 | after a scheme and a fixed middle, the capture is the rest of the line |
| ExternalLinkModel.WikipediaSpells | app/models/external_link.rb:19 | the Wikipedia pattern's fixed middle spells "://en.wikipedia.org/wiki/" |
| ExternalLinkModel.TwitterSpells | app/models/external_link.rb:20 | the Twitter pattern's fixed middle spells "://twitter.com/" |
| ExternalLinkModel.WikipediaCapture | app/models/external_link.rb:19 | a Wikipedia article URL captures the article name |
| ExternalLinkModel.TwitterCapture | app/models/external_link.rb:20 | a Twitter profile URL captures the handle |
| ExternalLinkModel.SearchNeedsFirstLetter | app/models/external_link.rb:19-20 | text without the pattern's first letter does not match |
| ExternalLinkModel.ExternalLink.ParseIdInput | app/models/external_link.rb:60-70 | a matching Wikipedia or Twitter URL is replaced by its capture; a twitter handle without a URL is stripped and loses a leading '@'; other inputs and types are left alone |
| ExternalLinkModel.WikipediaUrlRoundTrip | app/models/external_link.rb:32-83 | parsing a pasted Wikipedia URL and rendering the link gives `url` of the article name, which for a name without a backslash is the English Wikipedia URL of the article |
| ExternalLinkModel.StripSpacedHandle | app/models/external_link.rb:66 | stripping " @handle " gives "@handle" |
| ExternalLinkModel.TwitterHandleInput | app/models/external_link.rb:60-70 | a pasted " @handle " that the Twitter URL pattern does not match (the branch that strips) is stored as the bare handle |
| ExternalLinkModel.HandleWithoutH | app/models/external_link.rb:20 | text without the letter h (either case) never matches the Twitter URL pattern, so such handles take the stripping branch |
| ExternalDataModel.DatasetNamesAreKeys | app/models/external_data.rb:4-15 | DATASET_NAMES are the DATASETS keys other than reserved, each once |
| ExternalDataModel.DatasetsInvertedRoundTrip | app/models/external_data.rb:4-16 | DATASETS_INVERTED and DATASETS are inverse maps |
| ExternalDataModel.IsDataset | app/models/external_data.rb:54-56 | true iff the downcased name is a dataset with a non-zero code |
| ExternalDataModel.IsDatasetIgnoresCase | app/models/external_data.rb:54-56 | downcasing the name first does not change the answer |
| ExternalDataModel.VerifyDataset | app/models/external_data.rb:136-140 | raises, without a message, iff the name is not a dataset |
| ExternalDataModel.Store | app/models/external_data.rb:38 | Ruby `Hash#store`: a new key goes to the end, and an existing key keeps its place |
| ExternalDataModel.StoreWellFormed | app/models/external_data.rb:38 | storing keeps each key listed once |
| ExternalDataModel.FreshMembers | app/models/external_data.rb:38 | the appended keys are exactly the merged keys not already present |
| ExternalDataModel.StoreAllValues | app/models/external_data.rb:38 | storing each key in turn overrides the old values with the new ones |
| ExternalDataModel.StoreAllKeys | app/models/external_data.rb:38 | old keys keep their order, and new keys follow in the merged hash's order |
| ExternalDataModel.Merge | app/models/external_data.rb:38 | the merged values are the old values overridden by the new |
| ExternalDataModel.MergeKeys | app/models/external_data.rb:38 | merged key order is the old keys then the fresh new keys, each once |
| ExternalDataModel.MergeIdempotent | app/models/external_data.rb:38 | merging the same hash twice is the same as once |
| ExternalDataModel.ExternalData.MergeData | app/models/external_data.rb:35-44 | nil data becomes the hash; hash data is merged with it; any other data raises "Incorrectly serialized data attribute" and is left as it was |
| ExternalDataModel.MergeDataTwice | app/models/external_data.rb:35-44 | merging the same hash twice gives the old values overridden by the hash |
| OsDonationModel.FecCycleId | app/models/os_donation.rb:11 | cycle, '_' and transaction id, in that order |
| OsDonationModel.FecCycleIdInjective | app/models/os_donation.rb:9-13 | when the cycle has no '_', the id determines the cycle and the transaction id |
| OsDonationModel.ReferenceName | app/models/os_donation.rb:15-17 | "FEC Filing " followed by the microfilm number, or nothing when it is nil |
| OsDonationModel.ReferenceUrl | app/models/os_donation.rb:19-27 | the FEC search page when the microfilm is nil, else the image URL ending with the microfilm number |
| OsDonationModel.ReferencesIdentifyFiling | app/models/os_donation.rb:15-27 | names agree iff the interpolated microfilm agrees; for present microfilms, URLs agree iff the microfilms do |
| OsDonationModel.OsDonation.CreateFecCycleId | app/models/os_donation.rb:9-13 | sets the id from cycle and transaction id when both are present, and otherwise changes nothing |
| OsDonationModel.CreateFecCycleIdTwice | app/models/os_donation.rb:9-13 | running it twice sets the same id as once |

## Left out

- The database, Active Record queries and callbacks are out of scope. What they would supply becomes a parameter: the entity store, the links, the tags, the extension names and party names, and `String#truncate` for the excerpt.
- EntityModel.ResolveMerges: the merge chain is followed with a hop bound (fuel), and running out is an error. Ruby recurses without bound. RankedResolutionTerminates shows that enough fuel always suffices for an acyclic chain.
- EntityModel.SummaryExcerpt: Rails' `truncate` is a parameter, so its result past 150 characters is not constrained.
- EntityModel.MapFieldValues: the party lookup (`Entity.find`) is a map from id to name.
- Letter case is ASCII only: `downcase`, `toLowerCase`, `toUpperCase` and the regexes' IGNORECASE do not fold other letters.
- Strings are sequences of characters. Byte encodings and Unicode whitespace other than ASCII are not modelled.
- Utility.Pick: takes the source object as a map of own properties. JavaScript property order, the prototype chain, inherited properties and getters are not modelled.
- Utility.Omit: same limits as Utility.Pick.
- Strings.ToI: Ruby's `to_i` also reads a single '_' between two digits as a digit separator ("1_000" is 1000); the model stops at the underscore, so `EntityIdFor` of such a string is not modelled. The `0d`/`0D` prefix is modelled.
- Utility.Range: JavaScript engines also throw a RangeError when x exceeds their limit on the number of arguments `apply` may spread; that engine-specific limit is not modelled, only the array-length bound.
- Utility values: numbers are integers, so NaN, fractions and floating-point formatting in `String(val)` are left out.
- Utility.RelationshipDetails: its contract states only which categories throw. The field lists are in its body, and lemmas state the date fields, the "Is current?" field and distinctness.
- JavaScript's `Number(...)` in validDate: the model covers numeric and non-numeric text, but not exponent or hexadecimal forms.
- The DOM, URL, spinner and random-id helpers in utility.js are browser I/O and are not part of this model.
- ExternalLinkModel.ExternalLink.ParseIdInput: a nil `link_id` is not modelled; the id is always a string.
- ExternalLinkModel regex capture lemmas: they cover article and profile URLs with an http or https scheme. Other shapes the regexes accept, such as a missing slash or other hosts' paths, are covered only by the general matcher.
- ExternalDataModel.ExternalData.MergeData: the argument is a well-formed Hash. Other arguments are not modelled: Ruby stores any argument when `data` is nil, and `Hash#merge` raises TypeError for a non-Hash argument when `data` is a Hash.
- ExternalDataModel: `DESCRIPTIONS`, dataset statistics and the per-dataset query builders are left out, because they are display text and database queries.
- TagModel.Tag.IsRestricted: `restricted?` only reads a column, so it has no contract.
- Tag pagination and the homepage queries are database queries and are not part of this model.

## Findings

| source | as written | input that shows it | evidently intended | confidence | as-written member | corrected member |
|---|---|---|---|---|---|---|
| app/assets/javascripts/utility.js:343-344 | `val && String(val)` stringifies only truthy values | `{count: 0}` stays `{count: 0}` | the comment says "only stringify non-boolean existy vals", so 0 should become "0" | not executed | Utility.StringifyValueSkipsZero | Utility.StringifyExistingCorrected |
| app/assets/javascripts/utility.js:196-201 | `Number(part) > 12` is false for non-numeric text, so letters pass | "2019-ab-cd" is a valid date | month and day must be numbers in range | not executed | Utility.ValidDateAcceptsLetters | Utility.ValidDateNumericRefusesLetters |
