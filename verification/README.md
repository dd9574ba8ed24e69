# routeros-inspector-mcp: a verified model

This project models the parts of routeros-inspector-mcp whose behaviour is hardest to see by reading one function, and proves what they promise for every input, every run or every sequence of calls.

- **Redaction.** Tool output passes through nine text substitutions in a fixed order, and captured fixtures through one. The patterns are data of a small regular-expression fragment (`Regex.dfy`): character classes with repetition counts and optional `\b` anchors, matched greedily with backtracking. `Substitution.dfy` is leftmost, non-overlapping replacement; `Search.dfy` tells the same scan by positions; `Pipeline.dfy` runs a list of replacements; `Glue.dfy`, `Settling.dfy` and `Residue.dfy` say what a pass leaves behind; `Redaction.dfy`, `RedactionLaws.dfy`, `Idempotence.dfy`, `Chains.dfy` and `StructuredRedaction.dfy` are the redactor of tool output, `FixtureRedaction.dfy` that of fixtures.
- **Rule-list audits.** `Marks.dfy` correlates packet marks with queues, `Dscp.dfy` judges trust, wash and set rules. Both build indexes in loops; the verdicts are proved equal to quantified statements about the raw lists. `Mangle.dfy` is the row both read; `Filtering.dfy`, `Indexing.dfy` and `Sorting.dfy` stand for list comprehensions, `defaultdict(list)` and `sorted`.
- **VLAN audits.** `PyText.dfy` holds the Python text operations, `Vlans.dfy` the parser and the consistency audit, `Trunks.dfy` the trunk audit.
- **Execution and accounting.** `Execution.dfy` runs audits over devices, `Fleet.dfy` gates backend calls and collects partial results, `Reports.dfy` counts findings in two separate ways.
- **Connections.** `Connections.dfy` follows every connection the live backend opens.

Every notion the code decides by has a second definition that owes nothing to the first, and a lemma that the two agree: `SecretTexts.dfy` defines in characters what is a secret, and `Languages.dfy`, `Exactness.dfy`, `Coverage.dfy` and `Secrecy.dfy` prove that this is what the patterns match, what is hidden and what is left; `PyTextExact.dfy`, `DscpExact.dfy`, `MarksExact.dfy`, `VlansExact.dfy`, `ReportsExact.dfy` and `FleetExact.dfy` restate the verdicts on the fields of rules and rows, the texts of findings and the outcomes of calls.

Code that updates state or fills collections in loops is a method or a class here, proved against functions over the inputs; the laws are lemmas about those functions. Outcomes of calls into code outside the model (audits, backends, the network) are a function of the number of the call, which can be any function and so covers any history. Which IPv4 candidates are public is an arbitrary predicate, the gate.

## Where the code and its documentation differ

- `redaction.py` says redaction is idempotent. It is not for every text: a mask is not a word character, so masking a stretch that touches a word character creates a boundary. `apikeyapikey` is masked word by word, the last one first, and a chain of n such words changes in each of n passes (`Chains.ChainNeedsAllPasses`, `Chains.NotIdempotent`). Two passes differ exactly when two secrets meet inside a word and the masking of one completes the other: a masked certificate header stands directly before a stretch that begins with a secret needing a boundary there, or a masked secret of an open pattern that begins with a word character stands directly behind a stretch that ends with one (`Idempotence.IdempotentIff`). A text in which no two secrets meet in this way, a condition on its parts alone, needs one pass (`Idempotence.IdempotentUnlessMeeting`); so does one in which no word character touches a WireGuard key, private-key, api-key or certificate text (`Idempotence.IdempotentIfApart`). On every text, repeated passes reach a fixpoint (`RedactionLaws.PassesConverge`).
- `redaction.py` says that globally routable addresses are redacted. A public address written directly behind a dot need not be: in `10.8.8.8.8` the search from the left takes `10.8.8.8`, which is private, and goes on behind it (`Secrecy.DottedAddressStays`). The stage leaves an address whole exactly when no public address that the search takes overlaps it (`Secrecy.AddressWholeIff`); a public address without a dot before it is always hidden (`Secrecy.AddressNotWhole`).
- `dscp.py` ends with a finding for an empty list of findings. The wash section always adds one, so that branch is never taken (`Dscp.AlwaysReports`).
- `service.py` checks `read_only` a second time after the registry lookup, which has already refused such operations; the model checks it once.

## Model

| member | source | states |
|---|---|---|
| Regex.MatchLenExact | src/routeros_inspector_mcp/redaction.py:14-26 | greedy matching with backtracking returns a length exactly when the text up to it is in the pattern's language between the boundaries it asks for; there is at most one such length |
| Regex.UniqueLength | src/routeros_inspector_mcp/redaction.py:14-26 | for the redactors' patterns no two match lengths exist at one position, so greediness never decides |
| Exactness.PatternsExact | src/routeros_inspector_mcp/redaction.py:14-26 | the body of each of the eight patterns matches exactly the texts of its kind, defined in characters, and the pattern asks for a word boundary in front and behind exactly where that kind does |
| Exactness.AddressExact | src/routeros_inspector_mcp/redaction.py:52 | the address pattern's body matches exactly four groups of one to three digits with dots between them |
| Substitution.SplitSub | src/routeros_inspector_mcp/redaction.py:77-84 | one substitution keeps some stretches and masks the others; putting the masked texts back gives the input |
| Substitution.StarBarrier | src/routeros_inspector_mcp/redaction.py:51-52 | text on one side of a star has no influence on what a substitution does on the other side |
| Substitution.MaskBarrier | src/routeros_inspector_mcp/redaction.py:51-52 | no match of any stage overlaps an inserted mask, and both sides of a mask are substituted independently |
| Substitution.SubLoad | src/routeros_inspector_mcp/redaction.py:80-85 | a substitution leaves the text unchanged or strictly lowers the number of characters outside the mask's alphabet |
| Pipeline.PlanCorrect | src/routeros_inspector_mcp/redaction.py:80-85 | the whole pass works as if each stage treated every stretch kept between two masks as a text of its own |
| Pipeline.RenderLoad | src/routeros_inspector_mcp/redaction.py:80-85 | a text with masks in it is a fixpoint exactly when every stretch between the masks is one; otherwise its load drops |
| Glue.PlanHushed | src/routeros_inspector_mcp/redaction.py:80-85 | after a pass, any match left for an unconditional stage uses a boundary that masking a neighbour created |
| Glue.PlanCalm | src/routeros_inspector_mcp/redaction.py:66-77 | after a pass, the address scan as it ran over the original text finds nothing public in any kept stretch, whatever later stages cut |
| Settling.SettlesIff | src/routeros_inspector_mcp/redaction.py:80-85 | for any such list of stages, a second pass changes nothing exactly when no kept stretch is exposed at a boundary the masking made |
| Search.CutIffMasked | src/routeros_inspector_mcp/redaction.py:77-84 | a substitution masks something exactly when one of the leftmost, non-overlapping matches, told by positions, passes its gate |
| Settling.CalmExposed | src/routeros_inspector_mcp/redaction.py:66-77 | an address the second scan of a kept stretch masks is led to from a new left end by address characters only, or ends at a new right end |
| Settling.UngluedSettles | src/routeros_inspector_mcp/redaction.py:80-85 | one pass is enough if no cut separates two word characters |
| Residue.NoResidue | src/routeros_inspector_mcp/redaction.py:80-85 | a pattern without boundaries matches nowhere in the output of a pass; later stages cannot rebuild a match |
| Coverage.WholeIff | src/routeros_inspector_mcp/redaction.py:77-84 | a stretch survives one substitution whole exactly when no masked match overlaps it |
| Coverage.OccurrenceNotWhole | src/routeros_inspector_mcp/redaction.py:80-85 | a match with the boundaries it asks for in the text itself is left whole by no pass, whatever is masked around it |
| Redaction.RedactString | src/routeros_inspector_mcp/redaction.py:66-85 | the loop over the pattern list computes the nine substitutions in order, addresses first |
| Redaction.CodeIsStandard | src/routeros_inspector_mcp/redaction.py:14-26 | the code's stages are the nine patterns in order, each found exactly by the matcher, only addresses gated; every redaction law below is proved for all such redactors and every gate |
| Redaction.StagesOrderly | src/routeros_inspector_mcp/redaction.py:14-26 | each of the nine patterns has unique matches, no star, a character outside the mask's alphabet and word characters at its anchored sides; no later match can end inside an address |
| Redaction.Ipv4TailGuard | src/routeros_inspector_mcp/redaction.py:52 | an address contained in a proper beginning of an address match is followed by a digit |
| RedactionLaws.PassProgress | src/routeros_inspector_mcp/redaction.py:80-85 | a text is left alone exactly when no stage finds anything to mask; every other pass uses up characters outside the mask's alphabet |
| RedactionLaws.PassesConverge | src/routeros_inspector_mcp/redaction.py:1-5 | repeating the pass reaches a fixpoint within as many rounds as the text has characters outside the mask's alphabet |
| RedactionLaws.RedactsAcrossMasks | src/routeros_inspector_mcp/redaction.py:80-85 | a mask already in the text separates it into parts that are redacted independently |
| RedactionLaws.OnlySecretsReplaced | src/routeros_inspector_mcp/redaction.py:66-85 | the output is the input with disjoint secret texts (and only public addresses) replaced, all else kept in place |
| RedactionLaws.NoUnanchoredResidue | src/routeros_inspector_mcp/redaction.py:16-25 | the output contains no WireGuard key, no quoted community and no certificate header |
| Secrecy.NoOpenTextLeft | src/routeros_inspector_mcp/redaction.py:16-25 | nowhere in the output are there 43 key characters and an equals sign, eight or more community characters between quotes, or begin, blanks and certificate in any case |
| Secrecy.StandingNotWhole | src/routeros_inspector_mcp/redaction.py:14-26 | a secret of any of the eight kinds, told in characters, with no word going on where its kind asks for its end, is never left whole |
| Secrecy.AddressNotWhole | src/routeros_inspector_mcp/redaction.py:52-77 | a public address that stands on its own and has no dot before it is never left whole |
| Secrecy.AddressWholeIff | src/routeros_inspector_mcp/redaction.py:66-77 | after the address stage a stretch is whole exactly when no public address that the search takes overlaps it |
| Secrecy.DottedAddressStays | src/routeros_inspector_mcp/redaction.py:66-77 | the dot matters: in 10.8.8.8.8 the private address is taken first and the public one behind it stays |
| Secrecy.OnlySecretTexts | src/routeros_inspector_mcp/redaction.py:66-85 | the output is the input with disjoint texts of the nine kinds masked, addresses only if public, and all else kept |
| Secrecy.WordPartedBehind | src/routeros_inspector_mcp/redaction.py:14-26 | masking parts a word only where a key, private-key, api-key or header text begins |
| Secrecy.WordPartedBefore | src/routeros_inspector_mcp/redaction.py:14-26 | or where a certificate header ends |
| Secrecy.CodeHides | src/routeros_inspector_mcp/redaction.py:66-85 | all of this holds of the redactor as built |
| RedactionLaws.KeptStretchesSpent | src/routeros_inspector_mcp/redaction.py:80-85 | what each of the nine stages leaves in the kept stretches |
| Idempotence.IdempotentIff | src/routeros_inspector_mcp/redaction.py:1-5 | for every text and every notion of public address, redacting twice differs from redacting once exactly when a kept stretch s[a..b] begins with a secret that needs a boundary at a and a certificate header ends at a, or ends with one that needs a boundary at b and an open secret beginning with a word character starts at b |
| Idempotence.IdempotentIfUntouched | src/routeros_inspector_mcp/redaction.py:14-26 | one pass is enough if no word character touches a WireGuard, private-key, api-key or certificate match that it masks, on the sides where the pattern asks for no boundary |
| Idempotence.IdempotentUnlessMeeting | src/routeros_inspector_mcp/redaction.py:14-26 | one pass is enough for every text without two secret texts that meet inside a word, a certificate header in front of a bound secret or an open secret behind one |
| Idempotence.IdempotentIfApart | src/routeros_inspector_mcp/redaction.py:14-26 | one pass is enough for every text in which no word character stands directly before or after a text of those four patterns |
| Chains.ChainNeedsAllPasses | src/routeros_inspector_mcp/redaction.py:1-5 | a chain of n api-key words changes in exactly n passes, for every n |
| Chains.NotIdempotent | src/routeros_inspector_mcp/redaction.py:1-5 | a concrete text for which redacting twice masks more than redacting once |
| StructuredRedaction.SecretKeyExact | src/routeros_inspector_mcp/redaction.py:29-49 | a key is secret exactly when it has the length of one of twelve names and every character is the same up to case, or both are a hyphen or underscore |
| StructuredRedaction.RedactMirrors | src/routeros_inspector_mcp/redaction.py:96-114 | every string is redacted in its place, keys, list lengths and other leaves are kept at every depth, and the value under a key like one of the twelve names becomes the mask |
| StructuredRedaction.MirrorUnique | src/routeros_inspector_mcp/redaction.py:96-114 | nothing else has these properties |
| StructuredRedaction.NoResidueAnywhere | src/routeros_inspector_mcp/redaction.py:96-108 | no string at any depth of a redacted value holds a key, quoted community or certificate header |
| StructuredRedaction.ValueIdempotentIff | src/routeros_inspector_mcp/redaction.py:96-114 | redacting a nested value twice equals redacting it once exactly when no string outside secret keys is reopened in the sense of `Idempotence.IdempotentIff` |
| FixtureRedaction.RedactFixture | scripts/refresh_routeros_fixture.py:125-144 | the recursion with its dictionary loop computes the specified cleaning |
| FixtureRedaction.StringExact | scripts/refresh_routeros_fixture.py:139-143 | "public" becomes the mask; in any other string exactly hardware addresses are masked, every one that stands on its own, and the text around them is kept |
| FixtureRedaction.MacExact | scripts/refresh_routeros_fixture.py:53 | the pattern's body matches exactly six pairs of hexadecimal digits with colons between them |
| FixtureRedaction.FieldExact | scripts/refresh_routeros_fixture.py:126-136 | a field goes if its key is like one of four names, shows the mask if it is like one of nine, and is cleaned otherwise, whatever the fields around it |
| FixtureRedaction.ItemsExact | scripts/refresh_routeros_fixture.py:137-144 | lists are cleaned item by item and leaves other than strings are kept |
| FixtureRedaction.StrippedExact | scripts/refresh_routeros_fixture.py:127-130 | stripped keys are those equal to one of four names up to case and hyphens for underscores |
| FixtureRedaction.ConcealedExact | scripts/refresh_routeros_fixture.py:55-72 | concealed keys are those equal to one of nine names up to case and hyphens for underscores |
| FixtureRedaction.MacsOnce | scripts/refresh_routeros_fixture.py:53 | masking hardware addresses twice equals masking them once, on every string |
| FixtureRedaction.CleanedIsPlain | scripts/refresh_routeros_fixture.py:125-144 | after cleaning no string holds a hardware address or is "public", no stripped key survives and secret keys hold the mask, at every depth |
| FixtureRedaction.FixedIffPlain | scripts/refresh_routeros_fixture.py:125-144 | exactly such values are left alone by cleaning |
| FixtureRedaction.CleanIdempotent | scripts/refresh_routeros_fixture.py:125-144 | cleaning is idempotent on every nested value |
| FixtureRedaction.KeysKept | scripts/refresh_routeros_fixture.py:126-136 | exactly the stripped keys go, the others stay in order |
| Sorting.EnumerationUnique | src/routeros_inspector_mcp/audits/mangle_queue_correlation.py:102-126 | a set of marks has one ascending enumeration, which is what sorting yields |
| Sorting.BelowExact | src/routeros_inspector_mcp/audits/mangle_queue_correlation.py:102-126 | texts are ordered by the first character in which they differ, a beginning before the whole |
| Indexing.FileIndexes | src/routeros_inspector_mcp/audits/mangle_queue_correlation.py:62-84 | filing row by row keeps every index equal to in-order filtering by key |
| Indexing.IndexConserves | src/routeros_inspector_mcp/audits/mangle_queue_correlation.py:62-84 | over all keys an index holds each marked row exactly once |
| Marks.AuditMarks | src/routeros_inspector_mcp/audits/mangle_queue_correlation.py:31-157 | the audit with its indexes gives the finding and evidence lines defined by filtering the raw lists |
| Marks.PassIffAligned | src/routeros_inspector_mcp/audits/mangle_queue_correlation.py:86-157 | pass exactly if no queue is disabled or invalid, no disabled rule carries a packet mark and enabled rules produce exactly the marks queues consume; otherwise warn with 1 to 30 lines |
| MarksExact.StatusExact | src/routeros_inspector_mcp/audits/mangle_queue_correlation.py:37-157 | without rules and queues unknown for gateways and edges, pass for others; else pass exactly if all queues work, no rule with a packet mark is off and the enabled rules set exactly the marks queues consume, else warn |
| MarksExact.EvidenceExact | src/routeros_inspector_mcp/audits/mangle_queue_correlation.py:86-131 | the evidence is up to ten queues that do not work, then lines of the consumed and of the produced marks in ascending order, then the marks of disabled rules that queues consume |
| MarksExact.QueueLineExact | src/routeros_inspector_mcp/audits/mangle_queue_correlation.py:92-100 | a queue's line shows whether it is disabled and whether it is invalid |
| MarksExact.TakeExact | src/routeros_inspector_mcp/audits/mangle_queue_correlation.py:93-137 | cutting a list off keeps its first rows |
| MarksExact.WarningExact | src/routeros_inspector_mcp/audits/mangle_queue_correlation.py:132-145 | a warning shows the evidence from its beginning, up to thirty lines |
| MarksExact.ConsumedLines | src/routeros_inspector_mcp/audits/mangle_queue_correlation.py:102-113 | a consumed mark draws a line with its number of queues exactly if no enabled rule sets it, followed by up to three disabled rules that do |
| MarksExact.ProducedLines | src/routeros_inspector_mcp/audits/mangle_queue_correlation.py:115-122 | a produced mark draws a line with its numbers of enabled and disabled rules exactly if no queue consumes it |
| MarksExact.PassLists | src/routeros_inspector_mcp/audits/mangle_queue_correlation.py:147-157 | a pass lists, ascending, the marks consumed, the connection marks, and the routing marks or else tables |
| Marks.OrderIrrelevant | src/routeros_inspector_mcp/audits/mangle_queue_correlation.py:62-157 | permuting rules or queues does not change the status |
| Marks.IndexesConserve | src/routeros_inspector_mcp/audits/mangle_queue_correlation.py:67-84 | the packet and queue indexes hold every marked rule and queue once |
| Dscp.AuditDscp | src/routeros_inspector_mcp/audits/dscp.py:68-327 | the audit reports, section by section, what the positional specification says |
| Dscp.BeforeByIndex | src/routeros_inspector_mcp/audits/dscp.py:204-207 | comparing value-based list indexes is comparing positions, duplicates included |
| Dscp.LeastIndex | src/routeros_inspector_mcp/audits/dscp.py:204 | the minimum of the value-based indexes is the position of the first enabled WAN wash |
| Dscp.OrderWarningIff | src/routeros_inspector_mcp/audits/dscp.py:203-235 | the report holds the ordering warning exactly when there is an enabled WAN wash and a risky enabled trust rule stands before the first; without a wash it never does |
| Dscp.BroadTrustIff | src/routeros_inspector_mcp/audits/dscp.py:128-150 | the broad-trust failure fires exactly when some rule is about DSCP and an enabled trust rule has no readable DSCP, and no other finding has status fail |
| Dscp.TrustBeforeWashIsNarrow | src/routeros_inspector_mcp/audits/dscp.py:47-54 | with a WAN wash, neither finding is reported exactly when every enabled trust rule has a readable DSCP and those before the wash have a plain interface scope and name no WAN token |
| Dscp.WanReachesWash | src/routeros_inspector_mcp/audits/dscp.py:203-235 | then traffic entering at a WAN interface is accepted by no trust rule before the wash |
| Dscp.SetRulesFineIff | src/routeros_inspector_mcp/audits/dscp.py:237-301 | the report calls the set rules fine exactly when there is one and each uses the vocabulary and reads a mark an enabled rule produces |
| Dscp.PassIffSound | src/routeros_inspector_mcp/audits/dscp.py:68-327 | every finding is a pass exactly when WAN and IoT are washed, no trust rule is broad, no risky one comes before the wash, the set rules are fine and no rule about DSCP is disabled |
| DscpExact.PassExact | src/routeros_inspector_mcp/audits/dscp.py:68-327 | the same on the fields of the rules: all findings pass exactly if some enabled rule sets WAN and some IoT traffic to DSCP 0, every trust rule reads a number, none that may cover WAN precedes the first WAN wash, set rules exist and each sets one of seven values from a mark an enabled rule sets, and no rule mentioning DSCP is off |
| DscpExact.CoverageExact | src/routeros_inspector_mcp/audits/dscp.py:152-198 | wash coverage is reported exactly if an enabled rule with action change-dscp and a new DSCP of 0, in prerouting or with wash in its comment, names WAN, and such a rule names IoT |
| DscpExact.OrderWarningExact | src/routeros_inspector_mcp/audits/dscp.py:203-235 | the ordering warning, on the fields: a trust rule with a DSCP and no interface, a negated one or WAN somewhere precedes the first wash |
| DscpExact.FailureExact | src/routeros_inspector_mcp/audits/dscp.py:128-150 | a finding fails exactly if some rule mentions DSCP and an enabled trust rule has no DSCP that reads as a number |
| DscpExact.QuietExact | src/routeros_inspector_mcp/audits/dscp.py:82-126 | without rules the role decides between unknown and skip; with none about DSCP there is one warning |
| DscpExact.WanExact | src/routeros_inspector_mcp/audits/dscp.py:39-44 | an interface or comment names WAN exactly if WAN or wan occurs in it; the longer tokens add nothing |
| DscpExact.TrustLists | src/routeros_inspector_mcp/audits/dscp.py:128-162 | the trust findings list exactly the broad and the constrained trust rules |
| DscpExact.WashLists | src/routeros_inspector_mcp/audits/dscp.py:164-201 | the wash finding lists exactly the wash rules and says which ingress is missing |
| DscpExact.OrderLists | src/routeros_inspector_mcp/audits/dscp.py:203-235 | the ordering warning lists exactly the rules that stand before the first WAN wash, and that wash |
| DscpExact.SetLists | src/routeros_inspector_mcp/audits/dscp.py:237-301 | the set findings list exactly the rules outside the vocabulary and those whose mark no enabled rule sets |
| DscpExact.CountsExact | src/routeros_inspector_mcp/audits/dscp.py:250-258 | each fine set rule is shown with the number of enabled rules that set its mark |
| DscpExact.DisabledLists | src/routeros_inspector_mcp/audits/dscp.py:303-314 | the last warning lists exactly the rules about DSCP that are off |
| Dscp.AlwaysReports | src/routeros_inspector_mcp/audits/dscp.py:316-327 | every report holds a finding |
| PyText.PartsExact | src/routeros_inspector_mcp/audits/policy_backed.py:18 | splitting gives the comma-free parts whose joining is the text |
| PyText.IntRoundTrip | src/routeros_inspector_mcp/audits/policy_backed.py:25-28 | reading the decimal text of any integer gives the integer |
| PyTextExact.IntExact | src/routeros_inspector_mcp/audits/policy_backed.py:25-28 | a text reads as a number exactly if it is a sign or none and digits, single underscores between them, amid layout, and the number is that of its digits |
| PyTextExact.StripExact | src/routeros_inspector_mcp/audits/policy_backed.py:16-18 | stripping gives the one text with no blank at its ends that the text is but for blanks |
| PyTextExact.YesExact | src/routeros_inspector_mcp/audits/policy_backed.py:32-35 | a field reads as yes exactly if it is True, 1, or true, yes, 1 or on in any case between blanks |
| Vlans.ParseVlanIds | src/routeros_inspector_mcp/audits/policy_backed.py:21-29 | the loop collects exactly the ids of the parseable parts, in whatever order it takes them |
| Vlans.VlanRoundTrip | src/routeros_inspector_mcp/audits/policy_backed.py:12-29 | any comma-joined list of ids, in any order, with repeats and surrounding blanks, reads back as its set of ids |
| Vlans.VlanIdsUnion | src/routeros_inspector_mcp/audits/policy_backed.py:12-29 | parsing two lists joined by a comma is the union of parsing each |
| VlansExact.PartsMembers | src/routeros_inspector_mcp/audits/policy_backed.py:18 | the parts of a text are the comma-free texts that stand in it between commas or its ends |
| VlansExact.IdsExact | src/routeros_inspector_mcp/audits/policy_backed.py:12-29 | a field names a VLAN exactly if an item of its list, or a part of its text, reads as the number, blanks aside |
| VlansExact.ListRoundTrip | src/routeros_inspector_mcp/audits/policy_backed.py:16-17 | a list of written ids reads back as its set of ids |
| Vlans.AuditVlanConsistency | src/routeros_inspector_mcp/audits/policy_backed.py:281-346 | the loop over the rows, with its exceptions for dynamic rows and VLAN 1, gives the finding defined by comparing the two sets |
| Vlans.VerdictTrichotomy | src/routeros_inspector_mcp/audits/policy_backed.py:316-345 | with a policy the status is fail exactly if an id of it is absent, warn if none is and some id is beyond it, pass if both name the same ids |
| VlansExact.VerdictExact | src/routeros_inspector_mcp/audits/policy_backed.py:281-346 | the status on the rows: fail if no row counts some VLAN of the policy, else warn if a row counts another, else pass; a row counts what it names unless policy lacks VLAN 1 and the row is dynamic or the VLAN is 1 |
| VlansExact.ShownExact | src/routeros_inspector_mcp/audits/policy_backed.py:316-333 | the finding shows the ids of the policy, those counted and the two differences |
| Vlans.NoiseIgnored | src/routeros_inspector_mcp/audits/policy_backed.py:304-314 | unless policy names VLAN 1, any number of dynamic or VLAN-1-only rows at any places do not change the finding |
| Trunks.IndexPorts | src/routeros_inspector_mcp/audits/policy_backed.py:369 | the port table answers with the last row of a name |
| Trunks.IndexTags | src/routeros_inspector_mcp/audits/policy_backed.py:370-379 | each expected port's entry is the union of the ids of the enabled rows that tag it |
| Trunks.AuditTrunks | src/routeros_inspector_mcp/audits/policy_backed.py:349-445 | the findings are, in policy order, what is wrong with each expected trunk, or one pass |
| Trunks.VerdictIff | src/routeros_inspector_mcp/audits/policy_backed.py:381-445 | with a policy every finding is a pass exactly if every expected port exists, carries its VLANs and meets the PVID clause, and some finding fails exactly if a port does not exist or lacks a VLAN |
| VlansExact.TrunkExact | src/routeros_inspector_mcp/audits/policy_backed.py:367-445 | a trunk is sound exactly if the last port of its name has PVID 1 or none or admits tagged frames only, and every VLAN of it is carried by a row that is not disabled and tags the port |
| VlansExact.JudgedExact | src/routeros_inspector_mcp/audits/policy_backed.py:381-430 | a complaint names the port and is that it is missing, exactly which VLANs no row carries, or that the port is not fit |
| Trunks.PortNamedLast | src/routeros_inspector_mcp/audits/policy_backed.py:369 | among rows with one name the last counts |
| Trunks.MoreRowsKeepPass | src/routeros_inspector_mcp/audits/policy_backed.py:372-379 | adding VLAN rows anywhere never turns an all-pass report into anything else |
| Execution.Server.RunAudit | src/routeros_inspector_mcp/server.py:245-276 | a refused request calls nothing; an accepted one calls every pair and returns its entries in device-major order |
| Execution.AcceptedRequest | src/routeros_inspector_mcp/server.py:248-276 | an accepted request runs each requested pair once, at most 128 of them, and failures carry safe labels |
| Execution.EntryAt | src/routeros_inspector_mcp/server.py:261-274 | entry i*n+j names device i and audit j and holds what that call returned, or the label of what it raised |
| Execution.RequestedExact | src/routeros_inspector_mcp/server.py:248-249 | naming nothing or an empty list asks for everything, naming something for exactly that |
| Execution.DistinctOrder | src/routeros_inspector_mcp/server.py:248-249 | de-duplication keeps first occurrences in order |
| Execution.RefusedIff | src/routeros_inspector_mcp/server.py:250-257 | refused exactly if a name is unknown or more than 128 pairs are asked; unknown audits are reported first, then unknown devices, then the number of pairs |
| Execution.Server.RunUntilFailure | src/routeros_inspector_mcp/cli.py:79-88 | the command line runs the pairs in order, repeats included, and the first exception ends the run |
| Reports.Summarize | src/routeros_inspector_mcp/cli.py:91-110 | the summary counts every finding under its status, unrecognised ones as unknown |
| Reports.BaselineReport | src/routeros_inspector_mcp/cli.py:127-161 | each listed or seen device has the counts and rows of exactly its own results, in order |
| ReportsExact.SummaryExact | src/routeros_inspector_mcp/cli.py:91-110 | each count of the summary is the number of findings that state that status by name, and under unknown of all that state none of the other four |
| ReportsExact.OfExact | src/routeros_inspector_mcp/cli.py:134-136 | a device's results are those that name it, and under unknown those that name none |
| ReportsExact.EntryExact | src/routeros_inspector_mcp/cli.py:134-153 | a device has an entry exactly if it is listed or a result names it; its counts are those of its own findings, and it lists those that state neither pass nor skip, or all, in order, each row showing its status by name |
| Reports.DevicesConserve | src/routeros_inspector_mcp/cli.py:134-153 | per-device counts of a status add up to the overall count, with repeated and unlisted devices |
| Reports.ReportConserves | src/routeros_inspector_mcp/cli.py:127-161 | the two separately computed counts agree, all counts add up to the number of findings, and each device lists its actionable findings or all |
| Labels.LabelStable | src/routeros_inspector_mcp/redaction.py:88-93 | labels come from the allowlist and do not change when labelled again |
| Labels.LabelsExact | src/routeros_inspector_mcp/backends/base.py:15-22 | the safe labels are exactly the error classes of the backends and internal_error, so every backend error is shown as what it is |
| Fleet.Service.CallBackend | src/routeros_inspector_mcp/service.py:109-132 | a call reaches a backend only if every gate passes, is recorded, keeps the trace free of calls that are not permitted, and its payload is redacted or its failure labelled |
| Fleet.Service.FleetCall | src/routeros_inspector_mcp/service.py:240-260 | results and errors together cover exactly the targets with the last result or failure of each; the counts never exceed the total and reach it for distinct targets |
| FleetExact.CallExact | src/routeros_inspector_mcp/service.py:109-132 | a call gives the redacted payload that its backend returned, the label of the error it raised, or an error without a class if a gate refused it |
| FleetExact.CallCases | src/routeros_inspector_mcp/service.py:109-132 | a call succeeds exactly if the backend returned, fails with a label exactly if it raised, and in any other case exactly if it was refused |
| FleetExact.ReportExact | src/routeros_inspector_mcp/service.py:247-252 | in a fleet report a device's value is the redacted payload of its last call that returned, and its error the label of its last call that was refused or raised |
| FleetExact.TargetsExact | src/routeros_inspector_mcp/service.py:244 | naming no device or an empty list asks the whole inventory in order |
| Fleet.Service.Serve | src/routeros_inspector_mcp/service.py:85-132 | over any sequence of requests on one service, the calls recorded are those specified, all of them permitted, and every reply holds only safe labels and cleared payloads |
| Fleet.ServedIff | src/routeros_inspector_mcp/service.py:85-116 | the calls that reach a backend over any sequence of requests are exactly the requested ones for an inventoried, allowed device, a registered read-only operation and the right transport |
| Fleet.ReportSafe | src/routeros_inspector_mcp/service.py:119-132 | every reported error is a safe label; every value is a redacted payload of an admitted call, of its shape, with secret keys masked and no key, quoted community or certificate header in any other string |
| Fleet.WrappingKeepsLabel | src/routeros_inspector_mcp/service.py:26-31 | wrapping a failure at the boundary does not change what a client sees |
| Connections.Backend.Query | src/routeros_inspector_mcp/backends/routeros_api.py:170-206 | the events and the result of a query for every combination of outcomes of its steps |
| Connections.Backend.TwoQueries | src/routeros_inspector_mcp/backends/routeros_api.py:208-211 | the first row of one query and all rows of a second that is made only if the first succeeds |
| Connections.QueryResult | src/routeros_inspector_mcp/backends/routeros_api.py:150-195 | a query gives the rows of its deciding step or what went wrong in it; only the first attempt to connect tells authentication and credentials from an unreachable device |
| Connections.OneDecides | src/routeros_inspector_mcp/backends/routeros_api.py:170-195 | exactly one of the four steps decides |
| Connections.TwoResult | src/routeros_inspector_mcp/backends/routeros_api.py:208-211 | the first row of the one query and all rows of the other, or the failure of either |
| Connections.Backend.Serve | src/routeros_inspector_mcp/backends/routeros_api.py:322-325 | a sequence of collector calls, failures of one not stopping the next |
| Connections.QueryPaired | src/routeros_inspector_mcp/backends/routeros_api.py:174-193 | a query opens at most two connections, the second only after an undecodable answer, and closes each before the next event |
| Connections.ServeSafe | src/routeros_inspector_mcp/backends/routeros_api.py:170-206 | over any sequence of calls and outcomes at most one connection is open at any moment, none at the end, each opened and closed exactly once |

## Left out

- Non-ASCII classes: character classes, `\b`, case folding, `strip` and digits follow ASCII; the extra Unicode members of Python's classes are not modelled.
- The special-purpose address tables: which candidates are public is an arbitrary predicate, which also stands for candidates `ipaddress` rejects.
- Dictionaries are sequences of items with the order kept; that keys are distinct is not used, and assignment to a new key is appending.
- Fixture cleaning of non-string keys, and `pick`, `simple_rules` and `build_fixture`, which only rename fields.
- The wording of findings, evidence and reports: findings and evidence lines are records of what the wording shows; the evidence of the VLAN audits holds sets where the text sorts them.
- Rule fields other than flags, names, marks and DSCP values: an absent text field is the empty text, a field holding None is not modelled, and all other fields of a rule are one opaque text that takes part in equality.
- The trust rules of `Dscp.WanReachesWash` are matched by ingress interface alone, so the result covers every packet whatever its other properties.
- CPython's configurable limit on the number of digits `int` accepts.
- The registry of audits and operations, inventory loading and validation, policies other than VLANs and trunks, and the flat audits (QoS state, dead rules, backups, encrypted DNS, firmware, SNMP, STP, routes, failover).
- The audit log around `run_audit`, logging, time and JSON output.
- What audits, backends, the vault, TLS and the RouterOS library do: their outcomes are arbitrary. Closing a connection is assumed not to fail.
- Conversion of API rows to dictionaries and the field renaming of collectors.
