# Network device inventory: validation and record integrity

This project models the validation and record-integrity layer of an interactive inventory manager for network devices, and proves properties of that model in Dafny. The manager records PCs, servers, routers, switches, firewalls and printers. For each device it keeps a name, an optional IPv4 or IPv6 address with its subnet mask, a network layer, a set of services and a list of VLANs.

The repository holds three near-duplicate variants:

- `asdasd.py` is the dictionary-based variant and the anchor of the model.
- `asdasdd.py` is a second dictionary-based variant. It uses a different name validator, a different empty VLAN name, a create dialogue that validates while it builds, and a duplicate-IP rule with no self-exclusion.
- `lacodiga.py` is a line-based variant. Each record is a block of rendered text lines, and service edits rewrite those lines.

Modules follow the program's structure:

- `Text` and `Strings` hold the Python string operations the code relies on: `strip`, `split`, `join`, `lower`/`upper`, `int()`, `in` and `find`, all over ASCII.
- `Catalog` holds the fixed tables: device types, services, layers and VLAN bounds.
- `Ipv4` holds the address validator, the subnet-mask validator and the classful default masks.
- `Validators` holds the validators for names, services, VLAN ids and VLAN names.
- `Records` holds the dictionary record (`Device`), whose key rules are modelled by `Slot`: absent, `None`, or a string. It also holds the record builder, the VLAN list operations, the services field and the duplicate-IP predicates.
- `Network` holds the address/mask/layer dialogue of the edit session and the create dialogue of `asdasdd.py`. Both are modelled as step functions over a script of answers, with a runner method that loops over the answers.
- `Inventory` holds the report counting loops and the device list as a class: VLAN add and remove, service add and remove, and delete.
- `Editing` holds the working-copy edit session as a class: rename, retype, network, services, VLANs, save and leave.
- `Classic` holds `lacodiga.py`'s validators, its address dialogue and its service collection.
- `Rendering`, `ServiceLines` and `TextInventory` hold `lacodiga.py`'s record text, its line edit for adding a service, and its device list.

Where the design description and the code disagree, the model follows the code:

- The zero-mask rule is meant to refuse the value 0.0.0.0. The code compares the spelling `"0.0.0.0"` instead (the finding at `asdasd.py:175`).
- The design holds that an IPv4 address always comes with a valid mask. The edit dialogue can end with a mask and no address (the finding at `asdasd.py:383-395`).
- The anchor's VLAN-name validator returns the fixed text `VLAN_1` for an empty name. Its callers build `VLAN_<id>` themselves.

Each of the mask validators of the three variants (`asdasd.py:169-176`, `asdasdd.py:204-215`, `lacodiga.py:107-132`) is the same function, `Ipv4.ValidateMaskAsWritten`.

Where a finding touches a step of a dialogue or of the edit session, that step takes a `Variant`. `AsWritten` follows the code. `Corrected` applies the evidently intended fix. Invariants that the code as written breaks are proved for `Corrected`, and a lemma beside them shows the as-written behaviour that breaks them. The services read-back of the dictionary variants has no variant: `Records.ParseServices` is the code as written, and `ServiceLines.ServicesFieldReadBack` states the intended read-back.

## Model

| member | source | states |
|---|---|---|
| Catalog.KindLabelInjective | asdasd.py:42-49 | distinct device types have distinct labels |
| Catalog.KindOf | asdasd.py:543 | a found type has exactly the given label; none is found only when no type has that label |
| Catalog.KindOfLabel | asdasd.py:543 | looking up a type's own label gives back that type |
| Validators.FirstClash | asdasd.py:190-195 | a clash found is a record other than the excluded one whose lowercased name equals the key; none found means no such record exists |
| Validators.ValidateName | asdasd.py:186-196 | a name passes iff every character is in `[A-Za-z0-9-.\s_]`, it has at most 50 characters, and no record other than the excluded one has the same lowercased name; the charset and length errors are reported exactly when those rules fail |
| Validators.NameExclusionIgnoresRecord | asdasd.py:193 | the excluded record's own name never affects the verdict |
| Validators.NameExclusionIsRemoval | asdasd.py:192-195 | excluding record i gives the same verdict as checking against the list without record i |
| Validators.NameSelfClash | asdasd.py:534 | without the exclusion, an edited record's unchanged name clashes with itself |
| Validators.ValidatePlainName | asdasdd.py:226-230 | passes iff the name is over `[A-Za-z0-9-.\s]` and has at most 50 characters; never reports a clash |
| Validators.PlainNameCheckIff | asdasdd.py:497-501 | the second variant's charset check plus its separate uniqueness test accept exactly the names the anchor's validator accepts without exclusion that hold no underscore |
| Validators.ValidateShortName | lacodiga.py:149-154 | passes iff the name is over `[A-Za-z0-9-.]` and has at most 30 characters |
| Validators.ShortNameIsName | lacodiga.py:149-154 | a short name also passes the other two name validators and holds no whitespace |
| Validators.ValidateServices | asdasd.py:199-202 | passes iff every service is a catalogue label; otherwise it reports the first service that is not |
| Validators.ValidateVlanId | asdasd.py:204-210 | not-a-number exactly when the stripped text is not all digits; an accepted id is the text's integer value and lies in 1..4094 |
| Validators.VlanIdRoundTrip | asdasd.py:204-210 | the decimal text of every id in 1..4094 validates back to that id |
| Validators.CheckVlanName | asdasd.py:212-218 | an empty name gives the variant's default; a non-empty name is accepted iff its stripped text is a valid VLAN name, and is then returned stripped |
| Validators.VlanNameVariantsAgree | asdasdd.py:247-255 | the two variants agree on every non-empty name; on an empty one the anchor gives `VLAN_1` and the second variant gives `N/A` |
| Validators.VlanNameIdempotent | asdasd.py:212-218 | validating an accepted name a second time gives the same result |
| Validators.DefaultVlanNameInjective | asdasd.py:627 | distinct ids get distinct default names |
| Validators.DefaultVlanNameValid | asdasd.py:627 | the default name of an id in range is itself a valid VLAN name |
| Validators.VlanNameFor | asdasd.py:627 | the callers' rule: an empty answer gives `VLAN_<id>`, and any other answer gives what both validators give |
| Records.InsertById | asdasd.py:230 | insertion into a list sorted by id keeps it sorted and adds exactly the new entry |
| Records.SortById | asdasd.py:230 | the result is sorted by id and is a permutation of the input |
| Records.SortByIdSorted | asdasd.py:230 | sorting a list already sorted by id leaves it unchanged |
| Records.VlanEntryId | asdasd.py:780-784 | an accepted entry carries the validated id, and that id is not already on the record |
| Records.VlanEntryName | asdasd.py:783-784 | an accepted entry's name is the callers' rule applied to the answer, and is a valid VLAN name |
| Records.VlanEntryDuplicate | asdasd.py:782 | the entry is refused as a duplicate iff the id validates and is already on the record |
| Records.AppendSorted | asdasd.py:785-786 | append then sort gives a sorted list holding the old entries plus the new one |
| Records.AppendSortedInserts | asdasd.py:785-786 | on a sorted list, append then sort is insertion; a new id keeps the ids unique |
| Records.RemoveAt | asdasd.py:795 | `pop(i)` drops exactly position i and shifts the later entries down |
| Records.RemoveAtMultiset | asdasd.py:795 | the popped list holds the old entries minus the popped one |
| Records.RemoveAtKeeps | asdasd.py:795-796 | a pop keeps a sorted list sorted and unique ids unique |
| Records.ServicesFieldCanonical | asdasd.py:229 | any two service lists with the same members give the same field |
| Records.KeepTokens | asdasd.py:722 | a string is a kept token iff it is the stripped form of a piece that is neither blank nor `Ninguno`; there are no more tokens than pieces |
| Records.ParseServices | asdasd.py:722 | reading the field back gives non-empty tokens without spaces |
| Records.ParseServicesTokens | asdasd.py:722 | the tokens read back are exactly the stripped space-separated pieces of the field that are neither blank nor `Ninguno` |
| Records.LabelsHaveSpace | asdasd.py:33-40 | every catalogue service label holds a space |
| Records.ServiceMenuAlwaysFull | asdasd.py:722-725 | no catalogue label is ever among the tokens read back, so the add menu always offers every service |
| Records.AddServiceFieldMembers | asdasd.py:730-731 | the stored services are strictly sorted, and are exactly the old tokens plus the new label |
| Records.RemoveFirst | asdasd.py:753 | `remove(x)` drops one occurrence of x and nothing else |
| Records.RemoveServiceFieldMembers | asdasd.py:753-754 | when x is listed once, the remaining services are exactly the old ones other than x |
| Records.CreateDevice | asdasd.py:221-232 | `IP` and `IP_TYPE` are present iff an IP is given; `MÁSCARA` is present iff an IP and a mask are given and the type is IPv4; `CAPA` is present iff a layer is given; the services field is the sorted label set or `Ninguno`; the VLANs are sorted by id and are a permutation of the input |
| Records.CreateDeviceKeepsSortedVlans | asdasd.py:230 | VLANs given already sorted are stored as given |
| Records.CreateCheckedDevice | asdasdd.py:258-276 | a record is built iff the name passes and every service is a catalogue label, and then it is the anchor's record; otherwise nothing is built |
| Records.CreateDeviceNetConsistent | asdasd.py:225-228 | consistent address, mask and type values give a record with a mask only beside an IPv4 address |
| Records.IpClashAgrees | asdasd.py:365-371 | when the working copy still holds its original IP and the stored IPs are unique, the as-written duplicate test (compare with the copy's IP) equals the intended one (skip the record's own index) |
| Records.IpClashRefusesOwnAddress | asdasd.py:370 | once the copy's IP has changed, the as-written test refuses the record's own stored address, while the intended test accepts it |
| Records.IpInUseCovers | asdasdd.py:449 | both edit-time tests refuse only addresses the create dialogue's test would refuse too |
| Ipv4.QuadValues | asdasd.py:171 | a dotted quad has four integer fields, each below 1000 |
| Ipv4.QuadValuesAreInts | asdasd.py:171 | each field's value is what `int()` gives for it |
| Ipv4.Bin | asdasd.py:173 | `bin(o)[2:].zfill(n)` is a binary text of length n |
| Ipv4.BinValue | asdasd.py:173 | the binary text of o reads back as o |
| Ipv4.MaskBits | asdasd.py:173 | the concatenated expansion of four octets is a 32-bit binary text |
| Ipv4.BinZerosIff | asdasd.py:173 | an octet expands to all zeros iff it is zero |
| Ipv4.NoRiseIff | asdasd.py:174 | a binary text holds no `01` iff it is some ones followed only by zeros |
| Ipv4.MaskBitsZeroIff | asdasd.py:173-175 | the 32-bit expansion is all zeros iff all four octets are zero |
| Ipv4.ContiguousSplit | asdasd.py:174-175 | four octets expand to a text without `01` iff they are all zero or form a prefix mask |
| Ipv4.ValidateMaskIff | asdasd.py:169-176 | the intended validator accepts exactly the dotted quads of octets 0..255 whose expansion is 1^k 0^(32-k) with 1 <= k <= 32, the CIDR prefix masks of section 3.1 of RFC 4632 |
| Ipv4.ValidateMaskAsWrittenIff | asdasd.py:169-176 | the validator as written accepts those masks and also every zero mask not spelt `0.0.0.0` |
| Ipv4.PrefixQuadAccepted | asdasd.py:169-176 | every quad whose expansion is a non-empty prefix of ones passes both validators |
| Ipv4.ClassMaskAccepted | asdasd.py:181-183 | the three class default masks pass both validators |
| Ipv4.HolesRefused | asdasd.py:174 | a quad with the values 255.0.255.0 is refused as non-contiguous |
| Ipv4.MaskExampleHoles | asdasd.py:174 | `255.0.255.0` is refused as non-contiguous |
| Ipv4.MaskExampleZero | asdasd.py:175 | `0.0.0.0` is refused as a zero mask by both validators |
| Ipv4.MaskZeroSpeltOtherwise | asdasd.py:175 | `00.0.0.0` passes the validator as written although it is not a prefix mask; the intended validator refuses it |
| Ipv4.FirstOctet | asdasd.py:157 | the first octet of a dotted quad is below 1000 |
| Ipv4.ReservedBlockOf | asdasd.py:158-162 | a first octet is reserved iff it is 0 ("this network"), 127 (loopback), 224..239 (multicast) or at least 240 (future use), and each block is named exactly for its range |
| Ipv4.IpTextIsQuad | asdasd.py:155-156 | an address the IPv4 parser accepts is a dotted quad |
| Ipv4.IpTextNoSpace | asdasd.py:153 | an address the IPv4 parser accepts is non-empty and holds no whitespace |
| Ipv4.ValidateAddressV4Iff | asdasd.py:150-166 | the validator answers IPv4 iff the stripped input parses as IPv4 and its first octet lies in 1..126 or 128..223 |
| Ipv4.ValidateAddressV6Iff | asdasd.py:165 | the validator answers IPv6 iff the stripped input is non-empty, holds no space, is not IPv4, and satisfies the IPv6 parser |
| Ipv4.ValidateAddressReserved | asdasd.py:158-166 | an IPv4 address with a reserved first octet is refused and its block is named |
| Ipv4.BroadcastUnreachable | asdasd.py:163 | the validator never reports the broadcast-address error |
| Ipv4.BroadcastFirstOctet | asdasd.py:160-163 | `255.255.255.255` has first octet 255, which the earlier test already refuses |
| Ipv4.ClassOf | asdasd.py:181-184 | class A with `255.0.0.0` iff the first octet is in 1..126; B with `255.255.0.0` iff in 128..191; C with `255.255.255.0` iff in 192..223; nothing otherwise |
| Ipv4.ClassMasksValid | asdasd.py:181-183 | every default mask the class function returns passes both mask validators |
| Ipv4.AcceptedAddressHasClass | asdasd.py:178-184 | every accepted IPv4 address has a class default, chosen by its first octet |
| Ipv4.ClassDefaultOfQuad | asdasd.py:178-180 | on a dotted quad the class default is chosen by its first octet |
| Classic.ValidateIpIff | lacodiga.py:72-105 | accepts exactly the dotted quads of 1-3 digit octets in 0..255 whose first octet is in 1..126 or 128..223; an out-of-range octet gives the not-a-number error; the broadcast error is never given |
| Classic.LibraryAddressAccepted | lacodiga.py:72-105 | every IPv4 address the anchor accepts is accepted here too |
| Classic.LeadingZeroText | lacodiga.py:74-87 | a quad whose first field has a leading zero is accepted here but refused by the IPv4 parser |
| Classic.LeadingZeroAccepted | lacodiga.py:74-87 | the address with fields `010.0.0.1` is accepted here and is not IPv4 text for the parser |
| Classic.ClassLookup | lacodiga.py:134-147 | the lookup raises iff the first field is not an integer; otherwise it gives the class default of that number |
| Classic.AcceptedIpHasClass | lacodiga.py:134-147 | every accepted address has a class default |
| Classic.PlayAddress | lacodiga.py:351-400 | the loop's outcome is the dialogue's step function run over the answers |
| Classic.NetmaskAnswerIff | lacodiga.py:368-384 | for a valid address, a mask is taken iff it equals the class default; any other answer asks for the mask again |
| Classic.AddressStepKeeps | lacodiga.py:355-400 | one answer keeps the dialogue's invariant, or returns a pair whose mask is the class default of its address |
| Classic.AddressRunGood | lacodiga.py:351-400 | whatever the answers, a returned pair is nothing or a valid address with its class default mask |
| Classic.GoodPairMasks | lacodiga.py:140-145 | the mask of a returned pair is `255.0.0.0`, `255.255.0.0` or `255.255.255.0` |
| Classic.FirstRound | lacodiga.py:452-456 | the picks taken are the picks before the first `Terminar` |
| Classic.DistinctSpec | lacodiga.py:458-462 | keeping the first copy of each pick gives a list without repeats and with the same members |
| Classic.CollectServices | lacodiga.py:443-462 | the loop's list is the distinct picks before `Terminar`: no repeats, exactly their members, all catalogue labels |
| Network.ApplyNet | asdasd.py:561-564 | writing the dialogue's values sets the four network keys, possibly to `None`, and touches no other key |
| Network.ApplyNetConsistent | asdasd.py:561-564 | the written record keeps a mask only beside an IPv4 address iff the values are consistent |
| Network.MenuNumber | asdasd.py:329-335 | a chosen number is the integer of the answer and lies in 1..size; otherwise the answer is not such a number |
| Network.PickLayer | asdasd.py:330-334 | `0`, or an empty answer when a layer is already set, keeps the layer; a number in range chooses that layer; anything else asks again |
| Network.PlayEdit | asdasd.py:349-422 | the loop's outcome is the edit dialogue's step function run over the answers |
| Network.IpAnswerV4 | asdasd.py:361-376 | with the intended tests (the Corrected variant), an unused valid IPv4 address goes on to the mask prompt with the invariant kept |
| Network.IpAnswerV6 | asdasd.py:397-399 | with the intended tests (the Corrected variant), an unused valid IPv6 address clears the mask |
| Network.IpAnswerKeeps | asdasd.py:353-376 | with the intended tests (the Corrected variant), every answer at the IP prompt keeps the invariant |
| Network.MaskAnswerKeeps | asdasd.py:380-394 | with the intended tests (the Corrected variant), every answer at the mask prompt keeps the invariant |
| Network.LayerAnswerKeeps | asdasd.py:402-404 | every answer at the layer prompt keeps the invariant |
| Network.RetryAnswerKeeps | asdasd.py:412-418 | every answer at the retry prompt keeps the invariant |
| Network.EditStepKeeps | asdasd.py:349-422 | with the intended tests (the Corrected variant), any one answer, at any prompt, keeps the invariant or returns consistent, unused values |
| Network.EditRunKeeps | asdasd.py:349-422 | with the intended tests (the Corrected variant), any sequence of answers keeps the invariant |
| Network.EditDialogueConsistent | asdasd.py:339-422 | with the intended tests, values returned by the dialogue hold a mask only beside an IPv4 address, and any new address is valid and held by no other record |
| Network.V4IsNoCommand | asdasd.py:353-359 | no valid IPv4 address is one of the prompt's commands `0`, empty or `-` |
| Network.MaskCancelKeepsMask | asdasd.py:383-395 | as written, answers (new IPv4 address, `0`, empty) on a copy with a mask end with no address and the old mask |
| Network.MaskCancelClearsMask | asdasd.py:383-395 | with the mask cleared on cancel, the same answers end with no address and no mask, which is consistent |
| Network.SelectOption | asdasdd.py:405-439 | `VOLVER` iff `int()` of the answer is 0; a label iff the number is in range, and then the label at that position; anything else, the empty answer included, asks again |
| Network.ZeroSpellingParts | asdasdd.py:429-432 | any answer `int()` reads as zero, other than the text `0`, goes back on this menu and asks again on the first variant's |
| Network.MenusPartOnZeroSpellings | asdasdd.py:429-432 | `00` and `-0` go back on this menu but ask again on the first variant's; the empty answer asks again here but keeps a set layer there |
| Network.PlayCreate | asdasdd.py:441-482 | for either mask validator, the loop's outcome is the create dialogue's step function run over the answers |
| Network.NewIpAnswerKeeps | asdasdd.py:444-453 | at the IP prompt an answer gives nothing, or an address that validates and is unused |
| Network.NewLayerAnswerKeeps | asdasdd.py:452-458 | the layer menu keeps the address and adds a catalogue layer; an IPv6 address returns without a mask |
| Network.NewMaskAnswerKeeps | asdasdd.py:459-474 | the mask prompt returns only with a mask that passes the variant's validator (as written, `validar_mascara_red_ipv4` at line 465) |
| Network.CreateStepKeeps | asdasdd.py:441-482 | any one answer keeps the invariant or returns a good configuration |
| Network.CreateRunGood | asdasdd.py:441-482 | for either validator, whatever the answers, a returned configuration is nothing, or an unused valid address of the right type with a layer, and an IPv4 mask the validator passes |
| Network.GoodConfigConsistent | asdasdd.py:465 | with the intended validator, a returned configuration has consistent network values |
| Network.ConfiguredRecordConsistent | asdasdd.py:506 | with the intended mask validator (the Corrected variant), a record built from a returned configuration has consistent network fields |
| Network.CreateMaskSteps | asdasdd.py:441-474 | for either validator, an unused IPv4 address, layer 1 and a mask answer: the form returns the mask iff the validator passes it, and otherwise waits at the mask prompt |
| Network.CreateZeroMask | asdasdd.py:465 | as written, the mask `00.0.0.0` is returned and the record built from it is not consistent; corrected, the form waits at the mask prompt |
| Inventory.KeyIndex | asdasd.py:269 | a found index holds the key; none is found only when no entry holds it |
| Inventory.Tally | asdasd.py:268-269 | the counts have distinct keys, a key is present iff it occurs, each count is its number of occurrences and is positive, and the counts sum to the number of keys |
| Inventory.TypeCounts | asdasdd.py:319-322 | the per-type counts cover exactly the types on record, count each exactly, and sum to the number of devices |
| Inventory.LayerKeyAsWritten | asdasd.py:283 | a missing layer key gives the default, a stored layer gives itself, and a stored `None` gives `None` |
| Inventory.LayerHeading | asdasd.py:285 | a heading exists iff the key is not `None` |
| Inventory.EditedLayerBreaksReport | asdasd.py:564 | after an edit that leaves the layer unset, the layer heading cannot be built |
| Inventory.MissingLayerCount | asdasd.py:283 | the default key counts exactly the devices without a layer |
| Inventory.LayerCountsAsWritten | asdasdd.py:340-343 | the counts keyed by `get("CAPA", missing)` cover exactly the keys on record, count each exactly, sum to the number of devices, and hold a `None` key iff some record's layer is `None` |
| Inventory.LayerKeysAsWritten | asdasdd.py:341-343 | the loop's keys agree with the intended keys exactly on the records whose layer is not `None` |
| Inventory.LayerCounts | asdasdd.py:340-343 | with the intended key, which files a `None` layer under the default, the counts cover exactly the keys on record, count each exactly, and sum to the number of devices |
| Inventory.ConfirmationIff | asdasd.py:812-821 | the delete confirmation confirms iff the stripped answer is `S` or `s`, and declines iff it is `N` or `n` |
| Inventory.RemoveDeviceKeeps | asdasd.py:816 | popping a device keeps the others in order, and keeps every VLAN list valid and the names distinct |
| Inventory.ReplaceDeviceKeeps | asdasd.py:648 | replacing one device with a record whose VLANs are valid keeps all VLAN lists valid; a name equal up to case keeps the names distinct |
| Inventory.DeviceList.AddVlan | asdasd.py:778-789 | a refused entry leaves the list unchanged; an accepted one is appended to that device's VLANs and the list re-sorted; valid VLAN lists stay valid |
| Inventory.DeviceList.RemoveVlan | asdasd.py:790-798 | exactly the chosen VLAN is popped from that device, and nothing else changes |
| Inventory.DeviceList.AddService | asdasd.py:719-731 | only that device's services field changes, to the sorted set of old tokens plus the label |
| Inventory.DeviceList.RemoveService | asdasd.py:742-754 | a service is removed iff it is listed, and then only that device's services field changes |
| Inventory.DeviceList.Delete | asdasd.py:809-821 | only a confirming answer pops exactly the chosen device; other answers leave the list unchanged |
| Editing.MenuAddAsWritten | asdasd.py:621-630 | the as-written sub-menu appends to its view, but stores the sorted list |
| Editing.MenuRemoveAsWritten | asdasd.py:632-639 | the as-written sub-menu pops from its unsorted view and stores that view |
| Editing.VlanMenuLosesOrder | asdasd.py:609-638 | three adds and one remove in the sub-menu can store a list that is not sorted by id |
| Editing.MenuAdd | asdasd.py:628-629 | the intended add keeps view and store equal and sorted, and adds exactly the entry |
| Editing.MenuRemove | asdasd.py:637-638 | the intended remove keeps view and store equal, and removes exactly the chosen entry |
| Editing.MenuKeeps | asdasd.py:621-639 | the intended add of a new id, and any remove, keep the VLANs sorted with unique ids |
| Editing.MenuEntryKeeps | asdasd.py:623-628 | an entry accepted from the answers keeps the VLANs sorted and unique |
| Editing.MenuAnswer | asdasd.py:621-631 | for either variant, an accepted entry is added as that variant adds it (as written: appended to the list shown, a sorted copy stored); a refused one changes nothing; with the Corrected variant a good menu stays good |
| Editing.MenuPop | asdasd.py:632-639 | for either variant, the entry at the chosen position of the list shown is popped, and what is left is both shown and stored; with the Corrected variant a good menu stays good |
| Editing.MenuPopAgrees | asdasd.py:609-639 | while the list shown and the stored list are one, both variants pop the same entry |
| Editing.WarningsOf | asdasd.py:550-553 | a warning is raised exactly when the old type had services (or VLANs), the new type does not, and the record still holds some |
| Editing.SaveKeepsDistinctNames | asdasd.py:646-648 | saving a copy whose name passes with self-exclusion keeps the names distinct |
| Editing.NetworkEditKeeps | asdasd.py:559-564 | with the intended tests (the Corrected variant), an edited network block written into a consistent copy keeps it consistent, with a fresh address |
| Editing.EditSession.constructor | asdasd.py:503-506 | the session starts with the original and the working copy equal to the chosen record |
| Editing.EditSession.Rename | asdasd.py:529-539 | an empty or unchanged answer does nothing; otherwise the name is validated with self-exclusion and set only on success |
| Editing.EditSession.Retype | asdasd.py:541-554 | a new type changes only the type, keeps services and VLANs, and gives the warnings |
| Editing.EditSession.EditNetwork | asdasd.py:557-566 | for either variant, the copy's network keys change only when the dialogue finishes, to its values; with the Corrected variant they stay consistent |
| Editing.EditSession.OpenServices | asdasd.py:569-574 | the services sub-menu opens iff the type has services, and reads the copy's tokens |
| Editing.EditSession.ServiceAdd | asdasd.py:583-590 | the label is appended to the tokens, and the copy's field is rebuilt from them |
| Editing.EditSession.ServiceRemove | asdasd.py:591-598 | one occurrence is removed from the tokens, and the copy's field is rebuilt from them |
| Editing.EditSession.OpenVlans | asdasd.py:604-609 | the VLAN sub-menu opens iff the type has VLANs, with the view set to the copy's VLANs |
| Editing.EditSession.VlanAdd | asdasd.py:621-631 | for either variant, the entry is checked against the list shown, and the two lists become that variant's add; only the copy's VLANs change; with the Corrected variant a good menu stays good |
| Editing.EditSession.VlanRemove | asdasd.py:632-639 | for either variant, the VLAN at the chosen position of the list shown is removed, and what is left is shown and stored; with the Corrected variant a good menu stays good |
| Editing.EditSession.Save | asdasd.py:644-656 | saving succeeds iff the copy's name passes with self-exclusion, and then replaces only that record, keeping names distinct; on failure the collection is unchanged |
| Editing.EditSession.Leave | asdasd.py:662-666 | leaving is allowed iff the copy equals the original |
| Rendering.Head | lacodiga.py:169 | every field line begins with the colour code and the field's own emoji |
| Rendering.KeyOfEmoji | lacodiga.py:169-180 | each field's emoji identifies that field |
| Rendering.ParseFieldLine | lacodiga.py:169-180 | a rendered field line reads back as its key and value |
| Rendering.FieldLineHead | lacodiga.py:169-180 | a field line starts with a field's head iff it is that field's line |
| Rendering.CreateCheck | lacodiga.py:164-166 | creation passes iff the name passes and every service is a catalogue label; a service error names a service that is not |
| Rendering.RenderKeys | lacodiga.py:168-180 | the rendered lines hold a field iff the entries hold it |
| Rendering.EntryRules | lacodiga.py:168-180 | type and name come first; the IP line appears iff an IP is given; the mask line iff an IP and a mask are given; the layer line iff a layer is given; the services line iff services are given, last, and joined by spaces |
| Rendering.RecordLineRules | lacodiga.py:168-180 | the same presence rules hold of the rendered lines |
| Rendering.ParseRendered | lacodiga.py:168-180 | the rendered lines read back as the entries |
| Rendering.FramedJoin | lacodiga.py:183 | the record text is the lines between two separator rules, joined by newlines |
| Rendering.LinesFree | lacodiga.py:168-183 | a character foreign to names, labels and heads, and absent from the values, is absent from every line |
| Rendering.DecodeCreated | lacodiga.py:162-183 | a created record text reads back as exactly its entries |
| Rendering.ErrorTextMarked | lacodiga.py:186 | every error text holds the error mark |
| Rendering.RecordUnmarked | lacodiga.py:183 | a created record holds no error mark |
| Rendering.StoredIff | lacodiga.py:667-668 | the main menu keeps the text iff creation passed its checks |
| ServiceLines.FirstMarkedFrom | lacodiga.py:565-569 | a found line holds the services marker |
| ServiceLines.FirstMarkedSpec | lacodiga.py:565-569 | the forward scan finds the first such line, and finds none only when none exists |
| ServiceLines.LastRuleFrom | lacodiga.py:580-584 | the insertion point is a line of the record |
| ServiceLines.LastRuleSpec | lacodiga.py:580-584 | the backward scan finds the last separator rule, or the last line when there is none |
| ServiceLines.RewriteReplaces | lacodiga.py:576-578 | with a services line, only that line changes, to the old services and the new label |
| ServiceLines.RewriteInserts | lacodiga.py:579-585 | without one, exactly one services line is inserted at the last rule, and the other lines keep their order |
| ServiceLines.LabelPrefixFrom | lacodiga.py:571 | a found label is a catalogue label that begins the text, followed by its end or a space |
| ServiceLines.ParseJoined | lacodiga.py:571 | the intended guard reads a space-joined list of labels back as that list |
| ServiceLines.LabelShape | lacodiga.py:48-55 | every label holds a space, is trimmed, and holds neither the marker nor a newline |
| ServiceLines.LabelHeads | lacodiga.py:48-55 | distinct labels begin with distinct characters |
| ServiceLines.LabelNotPiece | lacodiga.py:571 | no label is ever a piece of a split on spaces, so the as-written guard never fires |
| ServiceLines.CreatedFramed | lacodiga.py:168-183 | a created record is the framed base lines followed by the services line, if any |
| ServiceLines.SplitFramed | lacodiga.py:560 | splitting a framed text gives back the rules and the lines |
| ServiceLines.FramedMarked | lacodiga.py:565-569 | in a created record, the marked line is the services line, or there is none |
| ServiceLines.ExistingOfServices | lacodiga.py:567 | the services read from the marked line are exactly those stored |
| ServiceLines.RewriteFramedListed | lacodiga.py:576-578 | on a framed record with services, the rewrite extends that one line |
| ServiceLines.RewriteFramedUnlisted | lacodiga.py:579-585 | on a framed record without services, the rewrite inserts the services line before the closing rule |
| ServiceLines.RewriteTail | lacodiga.py:576-585 | in both cases the rewritten lines are those of the record created with the label added |
| ServiceLines.RewriteCreated | lacodiga.py:559-587 | the edited text of a created record equals the text created with the label appended |
| ServiceLines.AsWrittenAppends | lacodiga.py:571-587 | as written, the edit always appends, even when the label is already listed |
| ServiceLines.AsWrittenDuplicates | lacodiga.py:571 | as written, adding a listed label again stores a record listing it twice |
| ServiceLines.EditCreated | lacodiga.py:559-587 | with the intended guard, a listed label is refused, and any other gives the record created with it appended |
| ServiceLines.ServicesFieldReadBack | asdasd.py:722-723 | read by label rather than split on spaces, the stored services field gives back exactly its labels, sorted and each once, so the add menu would offer exactly the missing ones |
| TextInventory.DeleteStepKeeps | lacodiga.py:630-633 | only a number in range leads to the confirmation, and only a confirmed index in range is removed |
| TextInventory.RunDeleteInRange | lacodiga.py:604-656 | whatever the answers, a removed index is one of the list |
| TextInventory.ConfirmIff | lacodiga.py:636-648 | the confirmation removes exactly on `S` or `s`, and cancels exactly on `N` or `n`; the answer is not stripped |
| TextInventory.ZeroCancels | lacodiga.py:625-628 | `0` cancels whatever the list holds |
| TextInventory.DeleteByNumber | lacodiga.py:622-641 | typing the number k+1 and then `S` removes device k |
| TextInventory.AskDelete | lacodiga.py:604-656 | the loop's outcome is the dialogue run over the answers, and a removed index is in range |
| TextInventory.DeviceList.Create | lacodiga.py:665-668 | the created text is appended iff it is stored; otherwise the list is unchanged |
| TextInventory.DeviceList.AddService | lacodiga.py:559-587 | for either guard, the record is replaced by the line edit's result iff the edit succeeds; otherwise nothing changes |
| TextInventory.DeviceList.Delete | lacodiga.py:597-656 | an empty list cancels; otherwise only a removal pops exactly that record, and every other outcome leaves the list unchanged |
| TextInventory.DialogueRecordStored | lacodiga.py:403-464 | a record put together by the add dialogue always passes its checks and is kept |
| TextInventory.EditKeepsDistinct | lacodiga.py:571 | with the intended guard, a record with distinct services keeps them distinct after an edit |
| Text.LowerEqualIff | asdasd.py:194 | two names are equal after `lower()` iff they have the same length and agree character by character up to case |
| Text.SortedSetCanonical | asdasd.py:229 | lists with the same members give the same sorted set |
| Text.SplitJoin | lacodiga.py:587 | splitting a join of pieces without the separator gives back the pieces |
| Text.JoinSplit | lacodiga.py:560 | joining a split gives back the text |
| Text.PyIntOfDigits | asdasd.py:207 | `int()` of a digit string is its decimal value |
| Text.NatToStringValue | asdasd.py:627 | the decimal text of n reads back as n |
| Strings.Find | lacodiga.py:566 | the `in` test of that line is `Contains`: a position is found iff the text occurs, and it is the first occurrence |

## Left out

- Terminal rendering, colours, sleeps, screen clearing, menu display, login and the main menus. These are user interface; only the answers they collect are modelled, as scripts of answers.
- JSON load and save, the TXT export and the report printing. These are file I/O; only the report's counting loops are modelled.
- The anchor's interactive create flow. It passes `None` into the address step, which reads fields of it at `asdasd.py:343-347`, so it raises before asking anything. The create dialogue is modelled from `asdasdd.py:441-482` instead.
- IPv6 parsing by the `ipaddress` library is a parameter `isIpv6`. The IPv4 parser is modelled as a strict dotted quad without leading zeros.
- Unicode: text is ASCII only. Regex `$` matching before a trailing newline, `\s` on Unicode spaces, `isdigit` on non-ASCII digits and `lower`/`upper` on non-ASCII text are not modelled.
- The report of `lacodiga.py` (lines 188-322) scrapes rendered display text, so it is not modelled.
- The type filter and name extraction over display text in `lacodiga.py` (529-540, 608-618) are not modelled. The service edit takes a record index and a label instead.
- The candidate filter of `seleccionar_dispositivo_para_accion` (`asdasd.py:690-711`) is not modelled. The device list's operations take an index into the list.
- Which layers and services the dialogues offer for each device type is left to the caller.
- The `Desconocido`/`Desc.` default type key in the report is not modelled. The builder always stores a type.
- Records loaded from disk that lack keys are not modelled.
- The warning for a non-default mask in `asdasdd.py:466-468` only prints a message.
- `servicios=None` in the builder is taken as the empty list.
- Edit option 9 (discard) returns with nothing stored, so it needs no member: no method of the session changes the collection except `Save`.
- Classic.LeadingZeroAccepted: states one direction only. Addresses with leading zeros are accepted here but refused by the anchor, so the converse of Classic.LibraryAddressAccepted does not hold.
- Network.IpAnswerV4, Network.IpAnswerV6, Network.IpAnswerKeeps, Network.MaskAnswerKeeps, Network.EditStepKeeps, Network.EditRunKeeps, Network.EditDialogueConsistent: stated for the Corrected variant only. As written, the duplicate test and `0` at the mask prompt break the invariant; Network.MaskCancelKeepsMask and Records.IpClashRefusesOwnAddress show how.
- Editing.NetworkEditKeeps: stated for the Corrected variant only, for the same reason. Editing.EditSession.EditNetwork plays either variant, but promises consistent fields only for the Corrected one.
- Network.ConfiguredRecordConsistent, Network.GoodConfigConsistent: stated for the Corrected variant only. As written, the create form can return the zero mask `00.0.0.0`, as Network.CreateZeroMask shows.
- Inventory.LayerCounts: counts with the intended key. Inventory.LayerCountsAsWritten counts with the key as written, and Inventory.EditedLayerBreaksReport shows where that key breaks the report.
- TextInventory.DeviceList.AddService: the guard is a parameter. As written, the guard never finds a label, as ServiceLines.AsWrittenDuplicates shows; the properties of the edit are proved of the intended guard.
- Records.ServiceMenuAlwaysFull: services do not round-trip. Labels hold spaces and the stored field is split on spaces, so the model states only that no label is read back. ServiceLines.ServicesFieldReadBack states the intended read-back by label.
- Editing.MenuKeeps, Editing.MenuEntryKeeps: stated for the Corrected sub-menu only. As written, the list shown and the stored list drift apart, as Editing.VlanMenuLosesOrder shows. Editing.EditSession.VlanAdd and Editing.EditSession.VlanRemove play either variant, but promise a good menu only for the Corrected one.
- The VLAN sub-menu's list is the record's own list object until the first add. The model holds the two as equal values, and each add or remove assigns both.

## Findings

| source | as written | input that shows it | evidently intended | confidence | as-written member | corrected member |
|---|---|---|---|---|---|---|
| asdasd.py:175 | the zero-mask test compares the text with `"0.0.0.0"` | the mask `00.0.0.0` passes, although its bits are all zero | refuse every mask whose value is zero | not executed | Ipv4.MaskZeroSpeltOtherwise | Ipv4.ValidateMaskIff |
| asdasd.py:609-638 | the VLAN sub-menu appends to its view but stores a sorted copy; a remove pops from the view and stores the view | add ids 30, 10, 20, then remove entry 2: the stored list is [30, 20] | the stored VLANs stay sorted by id | not executed | Editing.VlanMenuLosesOrder | Editing.MenuKeeps |
| asdasd.py:370 | the duplicate-IP test skips records whose IP equals the working copy's IP, not the record being edited | record 0 holds 10.0.0.1; its copy is changed to 10.0.0.2; re-entering 10.0.0.1 is refused as a duplicate | exclude the record being edited by index | not executed | Records.IpClashRefusesOwnAddress | Records.IpClashAgrees |
| asdasd.py:383-395 | answering `0` at the mask prompt clears the IP and its type but keeps the old mask | a copy with a mask, a new IPv4 address, then `0`, then an empty answer: the record keeps a mask without an IP | clear the mask along with the IP | not executed | Network.MaskCancelKeepsMask | Network.MaskCancelClearsMask |
| asdasd.py:564 | the edit stores the layer as `None` when none is chosen, and the report calls `upper()` on it at line 285 | edit a device without choosing a layer, then print the report: `None.upper()` raises | a device without a layer counts under the default key | not executed | Inventory.EditedLayerBreaksReport | Inventory.MissingLayerCount |
| asdasdd.py:465 | the create form checks the mask with the variant's own validator, whose zero-mask test compares the text with `"0.0.0.0"` | an unused IPv4 address, layer 1, then the mask `00.0.0.0`: the form returns a zero mask | refuse every mask whose value is zero | not executed | Network.CreateZeroMask | Network.ConfiguredRecordConsistent |
| asdasd.py:722-731 | the add reads the services field back by splitting on spaces, and every label holds a space | a device whose field holds the DNS label: the add menu still offers DNS, and adding it stores the label beside its two space-split pieces | read the field back label by label, so the menu offers only missing labels | not executed | Records.ServiceMenuAlwaysFull | ServiceLines.ServicesFieldReadBack |
| lacodiga.py:571 | the duplicate guard looks for the label among the pieces of a split on spaces, and every label holds a space | create a record with one service, then add that service again: it is listed twice | refuse a label already listed | not executed | ServiceLines.AsWrittenDuplicates | ServiceLines.EditCreated |
