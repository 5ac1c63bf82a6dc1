# irondirectory in Dafny

A model of the parts of irondirectory that carry state, arithmetic or a protocol,
with proofs of what they promise over all inputs, all runs and all interleavings.
`dafny verify dfyconfig.toml` checks the whole project.

The store is a map with atomic transactions, and a log of revisions where the order
of writes matters. Cryptography and DER enter as function values of which only laws
are used: decryption undoes encryption, checksums have the length of their type, and
a ciphertext opens to what was sealed in it or not at all. Clock reads, random draws
and the answers of the network are arguments.

| files | what they model |
|---|---|
| `RidPool` | the compare-and-swap RID allocator, any number of processes |
| `Provision` | `iron-bootstrap`, any number of members, crashes anywhere |
| `IndexKeys`, `Index` | secondary indexes beside the entry tree |
| `Replica`, `ReplicaNames` | the global catalog's subscribe, scan, replay, by key and by name |
| `Escapes`, `Dn`, `DnRoundTrip`, `NameOrder` | distinguished names as text (RFC 4514), and the order of their parts |
| `Keys`, `KeyDecoding`, `KeyRanges`, `Registry` | names as storage keys, when they come back and when subtrees are ranges, and routing by longest suffix |
| `Substrings`, `Filter` | search filters (section 4.5.1.7 of RFC 4511) |
| `Divisors`, `BitStrings`, `NFold` | n-fold and ones'-complement addition (section 5.1 of RFC 3961) |
| `Pac`, `Keytab`, `Tickets`, `TicketRules` | PAC layout and signatures (sections 2.3 and 2.8 of MS-PAC), keytab files, chains of tickets, and when a ticket is issued and under which key |
| `Session`, `WrapToken`, `SessionTokens`, `Framing` | SASL state and send sequence, GSS Wrap tokens (section 4.2 of RFC 4121), the tokens of a session as octets, stream framing |
| `Conventions` | the fixed conventions of the formats: letters, white space, escapes, keys, octet order |
| `Arithmetic`, `Bytes`, `Text`, `Options`, `Entries`, `Crypto`, `WellKnownRids` | what the others share |

Code that updates things in place is a class or a method with loops, proved against
functions on values; the protocols are state machines over those functions. What such a
function means is stated a second time, apart from it and in the terms of the format or
the protocol: octet by octet, with the assigned numbers, or as an if-and-only-if over the
request and the store.

The comment over `handle_sasl_bind` says that no security layer is offered but none; the
code takes integrity and confidentiality too, and so does the model.

A name is *clean* when nothing in its normalized text is taken for a delimiter or an
escape in its tree key: no slash anywhere, no comma or plus in a value, no attribute that
ends in an open backslash, and no backslash in a value but as the very last character.

Several promises of the source hold only under a condition. Each such place has an
if-and-only-if whose condition can be looked at before the call, and a lemma with an
input for which the promise fails:

- A RID repeats once 2^32 have been handed out, and a reserved one comes up once the counter wraps (`HowFarRidsReach`, `CounterWraps`).
- Members that find a root record without a SID can report different SIDs; from every other store they agree (`ReportsAgreeIff`, `TwoSids`).
- A put or delete leaves a stale index key when the entry in its way had one that it neither saw nor writes: a race, or a name respelled (`InterleavedAgreesIff`, `RacingPuts`, `RacingDelete`, `RespelledPut`, `RespellingGoesStale`).
- The replica keeps an entry that was deleted between sessions, never hears of the base entry again, and loses events when a response carries more than one (`ReplicaAgreesIff`, `SessionsAgreeIff`, `DeletedWhileAway`, `BaseEntryIff`, `BaseEntryGoesStale`, `BatchesHarmlessIff`).
- The replica files entries under their normalized names and looks up the name as the client spelled it, so an entry `cn=Alice,dc=x` is held and not found (`GetFindsIff`, `AliceIsMissed`).
- A value that ends in a space, or an attribute left open by a backslash, does not parse back from its printed form (`PrintParse`, `SpaceIsLost`, `OpenAttributeIsLost`).
- A slash or a plus in a value makes keys of different names collide and puts names into ranges that are not theirs (`KeyRangeExact`, `BaseRangeExact`, `CollidesIff`, `SlashCollides`, `PlusCollides`); a name that is not clean does not come back from its key (`KeyDecodes`, `CommaIsLost`); and the prefix made from the root name matches no child but one whose attribute starts with a slash (`RootPrefix`).
- After a re-bind refused under an active layer the next token repeats a sequence number (`SendSequence`, `RefusedRebindRepeats`).
- A BER length of 2^64 or more is taken modulo 2^64, although the code has a check that looks as if it would reject it (`LengthIsTrue`, `LengthOverflows`).
- In an AS reply the session key can have another enctype than the ticket, under whose enctype the TGS exchange reads the authenticator (`AsEnctypesAgree`, `EnctypesDiffer`).

## Model

| member | source | states |
|---|---|---|
| RidPool.RunIsFetchAndAdd | crates/store/src/ridpool.rs:36-60 | in every interleaving, with lost replies and deaths, the i-th successful transaction takes the stored number, or 1000 where there is none, plus i modulo 2^32: the loop refines an atomic fetch-and-add |
| RidPool.HowFarRidsReach | crates/store/src/ridpool.rs:26-60 | no RID twice if and only if at most 2^32 commits; all at least 1000, and the counter above all of them, each with its exact bound |
| RidPool.CounterWraps | crates/store/src/ridpool.rs:48-56 | a counter at 2^32 - 1: two allocations hand out that number and then 0 |
| RidPool.GarbageStays | crates/store/src/ridpool.rs:36-47 | a cell that does not parse is never written, and nothing is allocated from it |
| RidPool.RidsAreUnique | crates/bootstrap/src/lib.rs:37-39 | below the bound: no RID twice, none of them 500 or 502, the counter past all of them |
| RidPool.Pool.AllocateRid | crates/store/src/ridpool.rs:36-60 | one call, with any steps of the others before each read and each transaction and with a store that may fail the read, the transaction or the reply, is a run of the protocol; it returns the number of its own, last commit, or says that the cell does not parse, or that the store failed it |
| Provision.Agreement | crates/bootstrap/src/lib.rs:147-217 | from an empty store, in every interleaving with crashes anywhere: one reported SID, in a root record with the base, realm and NetBIOS name of the settings, on the base entry, on krbtgt (502) and on the administrator (500), each object created at most once |
| Provision.FinishedIsFinal | crates/bootstrap/src/lib.rs:147-217 | once one run has finished, no later step of anyone changes the store |
| Provision.ReportedWasDrawn | crates/bootstrap/src/lib.rs:155-186 | from any store, a reported SID is one that some member drew on the way or that the record had |
| Provision.LoadFailsIff | crates/bootstrap/src/lib.rs:169-186 | loading fails exactly when there is no record, or its base is another one, or its realm is not the one of the settings |
| Provision.ForeignRecordStays | crates/bootstrap/src/lib.rs:169-186 | from a store whose record has another base or another realm: in every interleaving nobody reports, and record, base entry and accounts stay as they were |
| Provision.ReportsAgreeIff | crates/bootstrap/src/lib.rs:169-186 | from any store, all reports of all interleavings agree if and only if there is no root record with the base and the realm of the settings and without a SID |
| Provision.TwoSids | crates/bootstrap/src/lib.rs:173-186 | from a store with such a record, the run in which two members fill in two given SIDs and both report |
| Provision.SecondRunChangesNothing | crates/bootstrap/src/lib.rs:147-217 | from any store, after a run that succeeds the next one changes nothing, creates nothing and reports the stored SID, whatever it draws |
| Provision.TickOk | crates/config/src/lib.rs:89-104 | every request keeps the record whole and everything in the store carrying its SID |
| Provision.Directory.CreateRecords | crates/bootstrap/src/lib.rs:155-167 | creates exactly the records that are missing, the root's with base, realm, NetBIOS name and SID, in step with the protocol |
| Provision.Directory.LoadRecord | crates/bootstrap/src/lib.rs:169-186 | refuses, and changes nothing, when there is no record or its base or realm is another one; otherwise fills in SID and NetBIOS name where missing and returns the SID of the record, in step with the protocol |
| Provision.Directory.CreateBaseAndKrbtgt | crates/bootstrap/src/lib.rs:188-202 | creates the base entry with the SID and krbtgt with RID 502 where missing, in step with the protocol |
| Provision.Directory.CreateAdmin | crates/bootstrap/src/lib.rs:204-214 | creates the administrator with RID 500 unless the name or the entry is there, in step with the protocol |
| Provision.Directory.Run | crates/bootstrap/src/lib.rs:147-217 | a whole run without interference is the protocol's run of one member: store, report and list of creations |
| Index.IndexKeysFor | crates/store/src/index.rs:21-31 | the nested loops give the index keys in order of specification and values |
| Index.InIndexList | crates/store/src/index.rs:21-31 | the keys are exactly those of the values of the indexed attributes |
| Index.Store.CommitPut | crates/store/src/index.rs:54-74 | the transaction built from what was seen: the store afterwards, key by key |
| Index.Store.PutEntryIndexed | crates/store/src/index.rs:47-74 | read and transaction together; an entry that does not decode fails and changes nothing |
| Index.Store.CreateEntryIndexed | crates/store/src/index.rs:82-96 | creates entry and index together, and only where nothing is |
| Index.Store.DeleteEntryIndexed | crates/store/src/index.rs:100-117 | removes entry and index together; nothing where there is no entry |
| Index.Store.LookupByIndex | crates/store/src/index.rs:120-135 | the names in the rows of the range, or an error at the first that does not parse |
| Index.PutAgreesIff | crates/store/src/index.rs:47-74 | after a put that rests on any earlier read, index and tree agree if and only if every index key of the replaced entry was seen or is written |
| Index.DeleteAgreesIff | crates/store/src/index.rs:100-117 | after a delete that rests on any earlier read, index and tree agree if and only if every index key of the entry that goes was in what it read |
| Index.InterleavedAgreesIff | crates/store/src/index.rs:47-117 | over every interleaving of puts and deletes with one spelling for each name, index and tree agree after every commit if and only if each commit saw or rewrites every index key of the entry in its way |
| Index.RacingPuts | crates/store/src/index.rs:54-74 | two puts of different values that both found an empty store: index and tree end up apart |
| Index.RacingDelete | crates/store/src/index.rs:100-117 | an entry put, rewritten and deleted on the strength of the first: index and tree end up apart |
| Index.RespelledPut | crates/store/src/index.rs:54-74 | a put under another spelling of the name: agreement if and only if the entry had nothing indexed |
| Index.TwoSpellings | crates/partition/src/dn.rs:177-191 | `cn=Alice` and `cn=alice` have one tree key and two printed forms |
| Index.RespellingGoesStale | crates/store/src/index.rs:54-74 | written under the one and then the other, an entry with an indexed value leaves index and tree apart |
| Index.RunAgrees | crates/store/src/index.rs:47-117 | over every serial run with one spelling for each name, index and tree agree |
| Index.LookupExact | crates/store/src/index.rs:120-135 | when they agree, a lookup names every entry that holds the value exactly once, and nothing else |
| Index.RunLookup | crates/store/src/index.rs:47-135 | so after every serial run over names that print and parse back |
| Index.LeftAlone | crates/store/src/index.rs:47-117 | a key whose value does not decode is left alone by puts and deletes, and one that is taken by creates |
| IndexKeys.EscapeSegment | crates/partition/src/key.rs:65-75 | the escaping loop |
| Conventions.SegmentEscapes | crates/partition/src/key.rs:65-75 | `%25` for a percent sign, `%2F` for a slash, every other character as it is, wherever it stands |
| Conventions.IndexRecordKeys | crates/partition/src/key.rs:46-62 | an index key, spelled out |
| IndexKeys.SegmentInjective | crates/partition/src/key.rs:65-75 | different segments stay different |
| IndexKeys.SegmentHasNoSlash | crates/partition/src/key.rs:65-75 | an escaped segment has no slash |
| IndexKeys.PrefixSelects | crates/partition/src/key.rs:46-62 | a key has the prefix of an attribute and value if and only if it is theirs |
| IndexKeys.KeyInjective | crates/partition/src/key.rs:46-53 | an index key tells attribute, value and name |
| IndexKeys.TreeAndIndexApart | crates/partition/src/key.rs:22-62 | no key is both a tree key and an index key |
| Replica.Project | crates/gc/src/aggregate.rs:29-39 | every name gives what it gives in the entry if some name on the whitelist equals it without regard to case, and nothing otherwise |
| Replica.ProjectionShows | crates/gc/src/aggregate.rs:29-39 | the same of the projection that the convergence results speak of |
| Replica.ScanSubtree | crates/store/src/entry.rs:52-71 | from a range read at one revision and a base read at another, the rows are a scan in the sense the convergence results need: every key below the base with its value at the first, the base with its value at the second, and nothing else |
| Replica.Aggregate.Upsert | crates/gc/src/aggregate.rs:71-73 | one entry set, no other touched |
| Replica.Aggregate.Remove | crates/gc/src/aggregate.rs:75-77 | one entry removed, no other touched |
| Replica.Aggregate.Get | crates/gc/src/aggregate.rs:79-81 | the entry held under the printed form of a name |
| Replica.Aggregate.ApplyEvent | crates/gc/src/watch.rs:51-63 | one change applied; a value that does not decode stops the session |
| Replica.Aggregate.WatchOnce | crates/gc/src/watch.rs:37-65 | one session: all rows, then the first event of each response up to one that does not decode |
| Replica.ReplicaAgreesIff | crates/gc/src/watch.rs:37-65 | for any earlier contents and any revision reached, the replica agrees on a key below the base if and only if the key was written since the subscription, or was scanned, or had not been held |
| Replica.FreshReplicaConverges | crates/gc/src/watch.rs:37-65 | an empty replica agrees on every key below the base although older events replay over newer rows |
| Replica.DeletedWhileAway | crates/gc/src/watch.rs:28-35 | the log and contents for which a deleted entry survives the rescan |
| Replica.Aggregate.Run | crates/gc/src/watch.rs:28-35 | the watcher's loop: one session after the other on one aggregate |
| Replica.HeldAfterAll | crates/gc/src/watch.rs:28-65 | after any number of sessions from empty, the keys held below the base are exactly those that were there when some session ended and that no session since has scanned or heard of |
| Replica.SessionsAgreeIff | crates/gc/src/watch.rs:28-65 | after any number of sessions from empty, a key below the base is as the store has it where the last one ended if and only if no earlier session left it there with none having noticed it since |
| Replica.BaseEntryIff | crates/store/src/entry.rs:86-96 | the base entry stays as scanned: agreement later if and only if it has not changed |
| Replica.BaseEntryGoesStale | crates/store/src/entry.rs:86-96 | the log that rewrites the base entry after the scan, and the session that still holds the first one |
| Replica.OutOfReach | crates/gc/src/watch.rs:37-65 | a session changes nothing that is held under a name no key in its reach decodes to |
| Replica.BatchesHarmlessIff | crates/store/src/entry.rs:100-115 | taking the first event of each response loses nothing, whatever the events, if and only if no response has two |
| ReplicaNames.CleanLabel | crates/gc/src/watch.rs:42-63 | the key of a clean name is filed under the normalized name |
| ReplicaNames.NamesConverge | crates/gc/src/watch.rs:37-65 | over a log of clean names and at every revision reached, an aggregate that started empty finds every strict descendant of the base, by its normalized name, exactly if the store has it, and then shows of it exactly the attributes on the whitelist, with the values the store has |
| ReplicaNames.NothingElse | crates/gc/src/watch.rs:37-65 | and finds nothing for a clean name that is neither the base nor below it |
| ReplicaNames.GetFindsIff | crates/gc/src/session.rs:112-116 | a name as a client spells it is answered as the store has it if and only if the store has nothing there or the name is in normalized form |
| ReplicaNames.SessionsByName | crates/gc/src/watch.rs:28-65 | the same by name: which strict descendants of the base are answered as the store has them after any number of sessions |
| ReplicaNames.AliceIsMissed | crates/gc/src/session.rs:112-116 | the store, session and entry for which `cn=alice,dc=x` is found and `cn=Alice,dc=x` is not |
| Escapes.SplitUnescaped | crates/partition/src/dn.rs:237-259 | the loop with its escape flag gives the pieces between unescaped delimiters |
| Escapes.FindUnescaped | crates/partition/src/dn.rs:261-273 | the first unescaped delimiter |
| Escapes.Unescape | crates/partition/src/dn.rs:277-307 | hex pairs, escaped characters and a lone last backslash |
| Escapes.EscapeValue | crates/partition/src/dn.rs:311-329 | specials anywhere, a space at either end |
| Escapes.PiecesOfJoin | crates/partition/src/dn.rs:237-259 | splitting undoes joining when no piece hides the delimiter after it |
| Escapes.UnescapedOfEscaped | crates/partition/src/dn.rs:277-329 | removing escapes undoes adding them, whatever follows |
| Conventions.HexPairReads | crates/partition/src/dn.rs:277-307 | a backslash and two hexadecimal digits of either case stand for the character they number |
| Conventions.EscapeReads | crates/partition/src/dn.rs:277-307 | a backslash before anything else stands for that character |
| Conventions.PrintedPlain | crates/partition/src/dn.rs:311-329 | a value is printed as it is if and only if it has none of the nine special characters and no space at either end |
| Conventions.Letters | crates/partition/src/dn.rs:213-233 | case mapping takes the 26 letters to each other and leaves every other character alone |
| Conventions.WhiteSpaceListed | crates/partition/src/dn.rs:213-233 | what trimming removes: the 25 characters of Unicode's White_Space |
| DistinguishedNames.ParseAva | crates/partition/src/dn.rs:213-233 | attribute and value, or the reason there is none |
| DistinguishedNames.ParseRdn | crates/partition/src/dn.rs:117-127 | the attributes of one relative name, sorted, or the first problem |
| DistinguishedNames.Parse | crates/partition/src/dn.rs:108-130 | the whole name, or the first problem |
| DistinguishedNames.SortSorts | crates/partition/src/dn.rs:126-126 | the attributes of a relative name end up in order, none added or lost |
| NameOrder.PartsInOrder | crates/partition/src/dn.rs:126-126 | the parts of a parsed relative name are those written, in the dictionary order of attributes and then of trimmed lower-case values |
| NameOrder.StringLeIff | crates/partition/src/dn.rs:126-126 | the order of strings is the dictionary's: a start of the other, or smaller where they first differ |
| NameOrder.WrittenOrderImmaterial | crates/partition/src/dn.rs:117-127 | texts with the same parts between plus signs, in whatever order, are both refused or read as equal relative names |
| DistinguishedNames.ParsedOk | crates/partition/src/dn.rs:108-130 | whatever parses is well formed: sorted, attributes trimmed, lower-case and without unescaped delimiters |
| DnRoundTrip.ValueRoundTrip | crates/partition/src/dn.rs:213-329 | a value comes back from its printed form if and only if it is printable; otherwise what comes back is longer |
| DnRoundTrip.PrintParse | crates/partition/src/dn.rs:83-191 | every well-formed name, multi-valued parts included, parses back to an equal name if and only if no attribute ends in an open backslash and no value ends in a space or is whitespace that starts with one |
| DnRoundTrip.SpaceIsLost | crates/partition/src/dn.rs:277-329 | a name the parser accepts and the printer does not bring back |
| DnRoundTrip.OpenAttributeIsLost | crates/partition/src/dn.rs:213-233 | the name parsed from `a\ =v` does not parse back from its printed form |
| DnRoundTrip.TextInjective | crates/partition/src/dn.rs:83-191 | names without open attributes print the same if and only if they are the same to the letter |
| Keys.RootPrefix | crates/partition/src/key.rs:38-42 | which keys the root name's prefix matches |
| Keys.SlashCollides | crates/partition/src/key.rs:29-33 | two names, one deeper than the other, with one key |
| Conventions.TreeKeys | crates/partition/src/key.rs:22-33 | the key of the root name, and the key of a child as its parent's with a slash, the attribute and the trimmed lower-case value |
| KeyDecoding.CleanKeyDecodes | crates/store/src/entry.rs:16-26 | the key of a clean name decodes to the name with normalized values |
| KeyDecoding.KeyDecodes | crates/store/src/entry.rs:16-26 | the key of a well-formed name decodes to that name if and only if the name is clean |
| KeyRanges.SubtreeIsRange | crates/partition/src/key.rs:29-42 | for clean names and a base other than the root, a key has the base's prefix if and only if the name is a strict descendant |
| KeyRanges.KeyInjective | crates/partition/src/dn.rs:177-183 | clean names share a key if and only if they are equal |
| KeyRanges.DescendantHasPrefix | crates/partition/src/key.rs:35-42 | below a base other than the root the prefix always fits, clean or not |
| KeyRanges.KeyRangeExact | crates/partition/src/key.rs:29-42 | for every well-formed name: over all clean bases, its key lies in the range exactly of its ancestors, if and only if no part of the key up to a slash spells a clean name that is not one of them |
| KeyRanges.BaseRangeExact | crates/partition/src/key.rs:35-42 | for every well-formed base other than the root, clean or not: the clean names in its range are exactly the clean names below it if and only if no clean name shares its key without being equal to it |
| KeyRanges.CollidesIff | crates/partition/src/key.rs:29-33 | for every well-formed name: some clean name shares its key without being equal to it if and only if the name its own key decodes to does |
| KeyRanges.PlusCollides | crates/partition/src/key.rs:29-42 | a name with value `a+uid=b` and a name with two values share a key, and a child of either lies in the range of the other |
| KeyRanges.CommaIsLost | crates/store/src/entry.rs:16-26 | a value with a comma, whose key does not decode to the name |
| Registry.PartitionRegistry.Insert | crates/partition/src/registry.rs:47-53 | files the partition, or refuses an id in use and changes nothing |
| Registry.PartitionRegistry.Resolve | crates/partition/src/registry.rs:76-81 | a partition with the longest base that holds the name, or none if none does |
| Registry.OwnerUnique | crates/partition/src/registry.rs:76-81 | with distinct bases there is only one |
| Registry.OwnerIsFirstAncestor | crates/partition/src/registry.rs:76-81 | it is the one met first when walking up from the name |
| Substrings.SubstringMatch | crates/ldap/src/filter.rs:153-167 | true if and only if initial, every any and final have places in order and without overlap |
| Substrings.MatchesIff | crates/ldap/src/filter.rs:153-167 | that is: the value is the initial, the anys in order with some text before, between and after them, and the final, one behind the other |
| Filter.AnyValue | crates/ldap/src/filter.rs:107-109 | true if and only if some value passes |
| Filter.EvaluateSubstrings | crates/ldap/src/filter.rs:136-151 | the value of a substrings item; misplaced components are Undefined |
| Filter.EvaluateExtensible | crates/ldap/src/filter.rs:210-236 | the value of an extensible match, unreadable values included |
| Filter.Evaluate | crates/ldap/src/filter.rs:56-103 | the early-exit loops compute the three-valued meaning |
| Filter.ValuesDecide | crates/ldap/src/filter.rs:84-109 | presence, equality, approximate match, greater-or-equal and less-or-equal are TRUE if some value of the attribute is there, folds to the same, comes not before, or comes not after, and otherwise FALSE |
| Filter.OrderItemsSplit | crates/ldap/src/filter.rs:80-98 | an attribute is present if and only if one of the two ordering items is TRUE, and the negation of each is TRUE if and only if every value lies strictly on the other side |
| Filter.SubstringsDecide | crates/ldap/src/filter.rs:136-167 | a substrings item is Undefined when an initial is not first or a final not last, and otherwise says whether some folded value is put together from the folded components |
| Filter.ExtensibleDecides | crates/ldap/src/filter.rs:210-236 | when an extensible match is Undefined, TRUE and FALSE, by attribute, rule and the readings of the values |
| Filter.Selects | crates/ldap/src/filter.rs:51-53 | an entry is selected if and only if the filter is TRUE, and then its negation does not select it |
| Filter.NegationNormalForm | crates/ldap/src/filter.rs:56-103 | moving negations to the items changes no result |
| Filter.ChildrenAsSet | crates/ldap/src/filter.rs:58-83 | order and repetition in And and Or change no result |
| Filter.UndefinedIsUnknown | crates/ldap/src/filter.rs:33-38 | a result that is not Undefined survives any decision of the Undefined items |
| Divisors.GcdIsGreatest | crates/crypto/src/kerberos.rs:149-155 | divides both, and every common divisor divides it |
| Divisors.LcmIsLeast | crates/crypto/src/kerberos.rs:157-159 | a common multiple that divides every other |
| BitStrings.ExtractBits | crates/crypto/src/kerberos.rs:161-176 | the bits of the range, zero-padded to whole bytes |
| BitStrings.RotateRight | crates/crypto/src/kerberos.rs:178-190 | rotation by any count, as one-bit rotations repeated |
| BitStrings.RotatedTwice | crates/crypto/src/kerberos.rs:178-190 | rotations add up |
| BitStrings.RotationHalves | crates/crypto/src/kerberos.rs:178-190 | as numbers: one turn to the right halves, and an odd number gains 2^(8n) - 1 first |
| NFold.OnesComplementAdd | crates/crypto/src/kerberos.rs:192-220 | a + b when that fits and a + b + 1 - 256^len otherwise, with at most one pass of the carry loop |
| NFold.AddCarry | crates/crypto/src/kerberos.rs:206-218 | one pass adds exactly one and leaves no carry; the index stays in range |
| NFold.Tiling | crates/crypto/src/kerberos.rs:222-246 | the copies fill a whole number of output-sized chunks |
| NFold.NFold | crates/crypto/src/kerberos.rs:222-246 | congruent modulo 2^(8n) - 1 to the copies rotated by 13 i bits, zero only for a zero input, the input itself when lengths match |
| NFold.NFoldUnique | crates/crypto/src/kerberos.rs:222-246 | that determines the result |
| NFold.NFoldMultiple | crates/crypto/src/kerberos.rs:222-246 | a result k times as long as the input is k copies of it, each turned 13 bits further |
| NFold.OneToTwo | crates/crypto/src/kerberos.rs:222-246 | one octet x folded to two is x and x / 32 + 8 (x mod 32) |
| Pac.BuildPacType | crates/kdc/src/pac.rs:415-437 | header, table and padded data, built in one pass |
| Pac.Layout | crates/kdc/src/pac.rs:406-437 | every offset is a multiple of 8, past the table, its buffer and zeros stand there, and later buffers start after it |
| Pac.PacRoundTrip | crates/kdc/src/pac.rs:415-437 | a reader that follows the table gets back the buffers if and only if count and sizes fit 32 bits |
| Pac.Generate | crates/kdc/src/pac.rs:474-508 | the server checksum over the zeroed blob, the KDC checksum over the server signature, or no PAC |
| Pac.GeneratedVerifies | crates/kdc/src/pac.rs:399-508 | zeroing both signatures gives back exactly the blob that was signed, and a receiver's validation accepts the PAC |
| Pac.GeneratedReads | crates/kdc/src/pac.rs:440-508 | a generated PAC says four buffers and version 0 and reads back as type 1 with the logon information, 10 with the client's, 6 and 7 with checksum type (15, 16, 19 or 20) and checksum, both of key usage 17, the second over the first |
| Keytab.EncodeEntryBody | crates/kdc/src/keytab.rs:54-68 | the body, field by field |
| Conventions.OctetOrder | crates/kdc/src/keytab.rs:39-51 | numbers most significant octet first, and the other way round, spelled out for two octets in both directions |
| Keytab.DecodeEntryBody | crates/kdc/src/keytab.rs:70-100 | an entry, its names passed through the lossy conversion, or the first problem |
| Keytab.Write | crates/kdc/src/keytab.rs:103-111 | magic, then each record with its length |
| Keytab.RecordLayout | crates/kdc/src/keytab.rs:103-111 | a record in the file: its length in four octets, its names, and the fields behind them |
| Keytab.RealmLayout | crates/kdc/src/keytab.rs:54-60 | the names begin with the number of components and the realm with its length |
| Keytab.ComponentLayout | crates/kdc/src/keytab.rs:54-60 | every component with its length, where the ones before it end |
| Keytab.TailLayout | crates/kdc/src/keytab.rs:60-68 | name type, time stamp, one octet of the version, enctype 17 to 20, the key with its length and the whole version, each at its octet |
| Keytab.Read | crates/kdc/src/keytab.rs:116-145 | the entries, holes skipped, or the first problem |
| Keytab.FileHeader | crates/kdc/src/keytab.rs:116-126 | files that do not begin with 5 and 2 are refused, each with its error |
| Keytab.ShortVersion | crates/kdc/src/keytab.rs:70-100 | a record without the whole version has that of its one octet |
| Keytab.OtherEnctypes | crates/kdc/src/keytab.rs:70-100 | a record is refused for its enctype if and only if that is not 17, 18, 19 or 20 |
| Keytab.LargestHole | crates/kdc/src/keytab.rs:127-145 | a hole of 2^31 bytes ends the reader |
| Keytab.HolesDoNotMatter | crates/kdc/src/keytab.rs:116-145 | a file of records with holes at any record boundary reads as the records in order, with names repaired where they are not valid UTF-8 |
| Keytab.FileRepairs | crates/kdc/src/keytab.rs:70-145 | for every file, reading with the lossy conversion is reading the bytes as they stand and then repairing the names |
| Keytab.RawRoundTrip | crates/kdc/src/keytab.rs:39-145 | with names as they stand, a file of up to 2^29 entries reads back to them, 32-bit version numbers included, if and only if every counted field is shorter than 2^16 bytes and every body shorter than 2^31; in longer lists a field that does not fit never comes back |
| Keytab.KeytabRoundTrip | crates/kdc/src/keytab.rs:39-145 | entries with names in valid UTF-8 read back when they fit, and when the reading repairs no name the conditions of `RawRoundTrip` are exact |
| Tickets.OpensToItsPart | crates/kdc/src/tgs_exchange.rs:69-100 | whichever KDC opens a ticket sees what was sealed in it, or nothing |
| Tickets.AsReplyAgrees | crates/kdc/src/as_exchange.rs:155-247 | the reply opens with the client's key to the session key, flags, times and nonce that belong to the ticket |
| Tickets.AsEnctypesAgree | crates/kdc/src/as_exchange.rs:138-153 | session key and ticket have one enctype if and only if the krbtgt has a key of the client's enctype |
| Tickets.EnctypesDiffer | crates/kdc/src/as_exchange.rs:138-153 | a KDC, request and lawful codec for which the session key has enctype 17 and the ticket enctype 18 |
| Tickets.TgsGrants | crates/kdc/src/tgs_exchange.rs:42-279 | local and referral replies are one kind of grant, on one of the two pairs of clock reads |
| Tickets.TgsReplyAgrees | crates/kdc/src/tgs_exchange.rs:184-279 | the reply opens with the subkey (usage 9) or the session key (usage 8) to what belongs to the ticket, whose session key has the ticket's enctype |
| Tickets.GrantInherits | crates/kdc/src/tgs_exchange.rs:328-345 | client and auth time are those of the presented ticket, no flags, and the end time is the earlier of its end plus the clock's advance and ten hours from now |
| Tickets.TicketChain | crates/kdc/src/tgs_exchange.rs:42-395 | along every chain of exchanges client and auth time stay, INITIAL is on the AS ticket only, and the end time exceeds the AS ticket's by at most the advances between paired clock reads |
| Tickets.FrozenChain | crates/kdc/src/time.rs:12-29 | under clocks that stand still no ticket outlives the AS ticket |
| Tickets.HolderIsRecognised | crates/kdc/src/tgs_exchange.rs:69-123 | the holder of any AS reply, with an authenticator sealed under any enctype, is authenticated by that KDC if and only if ticket and authenticator open, the ticket has not expired and the clocks differ by at most 300 seconds; a ticket that is not for changing a password opens, and so does an authenticator sealed under the enctype of the ticket's key |
| Tickets.TgtOpens | crates/kdc/src/tgs_exchange.rs:69-100 | such a ticket opens with the very key that sealed it |
| Tickets.ClientIsRecognised | crates/kdc/src/as_exchange.rs:58-117 | a client's sealed timestamp is accepted if and only if the clocks differ by at most 300 seconds; otherwise the error is the skew |
| Tickets.ReferralOpensNextHop | crates/kdc/src/tgs_exchange.rs:297-395 | a referral ticket opens, to what was sealed in it, at any KDC with the same keys under the inter-realm name |
| Tickets.LocalTicketIsForService | crates/kdc/src/tgs_exchange.rs:135-183 | a service ticket names the service asked for and is sealed with one of the keys stored under that service and realm, or under the realm's krbtgt for `kadmin/changepw`, of a type the client listed whenever there is one |
| TicketRules.AsClientIff | crates/kdc/src/as_exchange.rs:33-117 | a client is recognised by a key if and only if its entry has keys and salt and its first PA-ENC-TIMESTAMP opens, under usage 1 and with the first key of its type, to a time within 300 seconds |
| TicketRules.PreauthRequiredIff | crates/kdc/src/as_exchange.rs:58-93 | a request is told to pre-authenticate if and only if its client has an entry with keys and salt and it carries no timestamp |
| TicketRules.ClientUnknownIff | crates/kdc/src/as_exchange.rs:33-56 | which clients are unknown, and when the directory is at fault |
| TicketRules.PreauthRefusals | crates/kdc/src/as_exchange.rs:95-117 | a timestamp is refused for skew if and only if it opens to a time too far off, for its enctype if and only if that is not 17 to 20, and otherwise as a failure to authenticate |
| TicketRules.AsIssuedIff | crates/kdc/src/as_exchange.rs:33-153 | when encoding and sealing work, an AS reply is issued if and only if the client proves a key, the krbtgt of the realm has one and a session key can be drawn |
| TicketRules.AsReplyShape | crates/kdc/src/as_exchange.rs:138-247 | its ticket is for `krbtgt` of the realm for ten hours, or for changing a password for five minutes, sealed under usage 2 with a krbtgt key, with the flags INITIAL and PRE-AUTHENT, the client of the request and a session key of the enctype it proved |
| TicketRules.AuthenticatedIff | crates/kdc/src/tgs_exchange.rs:42-123 | a caller is authenticated if and only if its ticket opens with the key stored for the ticket's own name and enctype, has not ended, and the authenticator opens with the session key to the ticket's client within 300 seconds |
| TicketRules.ExpiredIff | crates/kdc/src/tgs_exchange.rs:102-105 | a ticket is refused as expired if and only if it opens and has ended |
| TicketRules.AuthenticatorRefused | crates/kdc/src/tgs_exchange.rs:107-123 | an authenticator that opens is refused for its client, or else for its time, and exactly then |
| TicketRules.TgsIssuedIff | crates/kdc/src/tgs_exchange.rs:124-183 | when encoding and sealing work, a TGS reply is issued if and only if the caller is authenticated and either a neighbouring realm is asked for and shares a key, or the service has one |
| TicketRules.ServerUnknownIff | crates/kdc/src/tgs_exchange.rs:135-149 | which services are unknown |
| TicketRules.ServiceTicketSealed | crates/kdc/src/tgs_exchange.rs:135-228 | the service, holding the keys stored under its name, opens the ticket under usage 2 to exactly what was issued: the caller as client, and a PAC of the caller signed with the service's key and the issuer's |
| TicketRules.ReferralTicketSealed | crates/kdc/src/tgs_exchange.rs:297-355 | a referral ticket is for the krbtgt of the other realm, issued by this one, and opens with the inter-realm key, which is of the presented ticket's enctype if there is one |
| TicketRules.ReferredFirst | crates/kdc/src/tgs_exchange.rs:124-133 | a request that a referral answers is not looked up here |
| Session.NthIsModulo | crates/ldap/src/session.rs:162-182 | the n-th number of a context is n modulo 2^64 |
| Session.SendSequence | crates/ldap/src/session.rs:162-240 | over every run each context's tokens carry 0, 1, 2, ... if and only if nothing is answered after a re-bind refused under an active layer |
| Session.RefusedRebindRepeats | crates/ldap/src/session.rs:218-240 | the shortest run that repeats a number |
| Session.LayerTakesEffect | crates/ldap/src/session.rs:534-652 | when the client's answer asks for integrity (2) or confidentiality (4): the response that completes the bind is in clear, and every later one up to the next bind is wrapped under its context, sealed exactly for confidentiality, numbered on from 1 |
| Session.LayerLasts | crates/ldap/src/session.rs:162-240 | and through every re-bind it refuses, up to and including the answer to the first bind that drops it, every response travels under the layer with that seal bit |
| Session.SuccessIff | crates/ldap/src/session.rs:500-652 | a bind succeeds if and only if it is anonymous, or simple with the right password, or answers a challenge with 1, 2 or 4; and when it goes on |
| Session.RefusalIff | crates/ldap/src/session.rs:500-652 | when a bind is refused with each of the other codes |
| Session.LeadsIff | crates/ldap/src/session.rs:534-652 | which bind leads to which state, in both directions, and when a challenge is sent and a context opened |
| Session.ChallengeAnswered | crates/ldap/src/session.rs:599-640 | the state after the client's answer, octet by octet: 1 leaves the connection plain, 2 protects it and 4 seals it |
| Session.Handshake | crates/ldap/src/session.rs:534-652 | a token, an acknowledgement, an answer that asks for a layer and one operation are answered by a clear response, the challenge numbered 0, a clear response, and token 1, sealed if and only if confidentiality was asked for |
| Session.NothingAfterUnbind | crates/ldap/src/session.rs:216-217 | nothing is sent after an unbind |
| Session.CloneState | crates/ldap/src/session.rs:110-128 | a copy in the same state with a counter of its own |
| Session.Server.SendResponse | crates/ldap/src/session.rs:162-182 | one frame in the state given, whose counter advances, when the send succeeds |
| Session.Server.HandleSaslBind | crates/ldap/src/session.rs:534-652 | one bind is one move of the negotiation that `SuccessIff`, `RefusalIff` and `LeadsIff` describe |
| Session.Server.HandleBind | crates/ldap/src/session.rs:500-527 | other binds drop the layer |
| Session.Server.HandleRequest | crates/ldap/src/session.rs:218-400 | one request is one step of the protocol |
| Session.Server.HandleConnection | crates/ldap/src/session.rs:190-400 | a connection is a run of the protocol |
| WrapToken.Wrap | crates/ldap/src/gssapi/wrap.rs:60-94 | the token that `TokenLayout` describes, its header filled in place |
| WrapToken.TokenLayout | crates/ldap/src/gssapi/wrap.rs:60-94 | a token octet by octet: 5, 4, flags 1 or 3, 255, EC (0, or the length of the checksum), RRC 0, the sequence number modulo 2^64, and then the plaintext and header sealed, or the plaintext and its checksum over the header with EC zero |
| SessionTokens.OctetsCount | crates/ldap/src/session.rs:162-182 | over every run in which nothing is answered after a refused re-bind, octets 8 to 15 of a context's i-th token spell i modulo 2^64, and octet 2 is 3 or 1 as it is sealed or not |
| WrapToken.Unwrap | crates/ldap/src/gssapi/wrap.rs:101-152 | the plaintext, or the reason there is none |
| WrapToken.AcceptedIff | crates/ldap/src/gssapi/wrap.rs:101-152 | a token is accepted for a plaintext if and only if it begins with 5 and 4 and its body, rotated back by RRC, decrypts to the plaintext and the header with RRC zero, or is the plaintext and its checksum over the header with EC and RRC zero |
| WrapToken.RefusedWhy | crates/ldap/src/gssapi/wrap.rs:101-152 | when a token is refused for its first octets, for the header in it, and for its checksum |
| WrapToken.ConstantTimeEq | crates/ldap/src/gssapi/wrap.rs:164-173 | equality, with every byte looked at |
| WrapToken.WrapRoundTrip | crates/ldap/src/gssapi/wrap.rs:60-162 | every plaintext comes back, sealed or not, under any rotation count a sender may apply |
| Framing.BerMessageLen | crates/ldap/src/framing.rs:35-64 | what a buffer says about the length of its first message |
| Framing.HeaderIsFinal | crates/ldap/src/framing.rs:35-64 | a known length, or a refusal, does not change as bytes arrive |
| Framing.LengthIsTrue | crates/ldap/src/framing.rs:52-63 | the computed length is the true one if and only if that is below 2^64 |
| Framing.HeaderDecides | crates/ldap/src/framing.rs:35-51 | which headers are refused for their tag, which as indefinite, and which need more |
| Framing.MessagesComeBack | crates/ldap/src/framing.rs:35-91 | a stream of decodable messages, each with its length in the short form or in any number of octets, is read as those messages |
| Framing.NextTakes | crates/ldap/src/framing.rs:69-91 | a message is taken with exactly its own octets, and where there is none nothing is taken |
| Framing.NextBufferTakes | crates/ldap/src/framing.rs:108-131 | a payload is taken with exactly its length and octets, and where there is none nothing is taken |
| Framing.SizedLayout | crates/ldap/src/framing.rs:133-142 | the length is spelled in four octets, highest first |
| Framing.Reader.ReadMessage | crates/ldap/src/framing.rs:69-91 | the next message and the rest, for every way the bytes are cut up |
| Framing.Reader.ReadSizedBuffer | crates/ldap/src/framing.rs:108-131 | the next payload and the rest, for every way the bytes are cut up |
| Framing.Reader.ReadAllMessages | crates/ldap/src/framing.rs:69-91 | successive calls give the same messages and the same end for every cut |
| Framing.Reader.ReadAllBuffers | crates/ldap/src/framing.rs:108-131 | successive calls give the same payloads and the same end for every cut |
| Framing.SizedRoundTrip | crates/ldap/src/framing.rs:108-142 | payloads written are read back if and only if each is shorter than 2^32 bytes |

## Left out

- Keytab.RawRoundTrip: for more than 2^29 entries with a body of 2^31 bytes or more only the condition on counted fields is proved; there the version numbers the reader may leave out could make up for the bytes it skips as a hole.
- Keytab.KeytabRoundTrip: the lossy conversion is a function value that leaves valid UTF-8 as it is. It can lengthen names, so a file in which it repairs some is outside the converse.
- RidPool.HowFarRidsReach: the counter wraps, as in a build without overflow checks; a build with them stops at the last number.
- Framing.LengthIsTrue: the last addition wraps, as in a build without overflow checks.
- Session.Server.SendResponse: a wrap or a write that fails ends the connection in the source; the model's sends succeed.
- Session.LayerTakesEffect: numbers the responses up to the next bind; the layer beyond it is in `LayerLasts` and the numbers in `SendSequence`.
- Pac.PacRoundTrip: assumes a blob shorter than 2^64 bytes, as every buffer in memory is.
- Pac.GeneratedVerifies: takes the encoded logon and client information as given, each shorter than 2^32 bytes; the NDR encoding of their fields is not part of this model.
- Provision.ReportsAgreeIff: a stored SID that does not parse stops every member before it reports, and is not told apart from one that does.
- Replica.ReplicaAgreesIff: assumes that written values decode and that no two written keys decode to one name, which clean names give (`ReplicaNames.CleanOwnLabel`).
- ReplicaNames.NamesConverge: the base is not the root, whose prefix matches no ordinary key (`RootPrefix`).
- Index.RunLookup: etcd refuses a transaction that writes one key twice; the model lets it through, which makes no difference when the values of an attribute are distinct.
- Filter.Evaluate: the folding, ordering and matching rules of the items are function values, not the tables of the source.
- NFold.NFold: lengths are unbounded, where the source multiplies them in machine words.
- Tickets.TicketChain: the skew check reads whole seconds; a client time with fractions is not modelled, nor is the cleaning of characters outside the permitted set in names.
- TicketRules.AsIssuedIff: assumes that encoding and sealing do not fail; where they do the answer is a generic error.
- TicketRules.TgsIssuedIff: assumes the same; a referral whose encoding or sealing fails falls through to the local lookup.
- Stored entries are values with set and get; adding and deleting single attribute values is left out, since it would only add easy members.
- Loading the whole registry, partition records other than the root's, and the configuration entry are reduced to what provisioning reads.
- AES, HMAC, PBKDF2, MD4, random generation, DER and JSON are not modelled; their laws are assumptions of the lemmas that need them.
- TLS, listeners, reconnect delays, error text, logging, the MicroDNS client, SAMR and LSARPC handlers, schema tables and rootDSE attributes are left out.
- Access decisions of the LDAP operations and the identity that a bind establishes are left out; the session model keeps the negotiation and what is sent.
