# A verified model of the Sling feature JSON reader core

This project models `JSONReaderBase`, the shared reading logic of the Apache
Sling feature-model JSON readers. A feature document is a JSON object. The
reader strips comments from it. It then reads each reserved section into
the feature being built:

- variables
- bundles and other artifact lists
- configurations
- framework properties
- extensions
- the prototype and its removals
- requirements and capabilities

Every section reader type-checks its values with `checkType`. The first
failure aborts the whole read.

The model is written in Dafny as pure functions over an immutable JSON tree
(`JsonValues.Json`). A Java map becomes the sequence of its entries in
iteration order. Each reader takes the containers the Java code mutates as
arguments. It returns either the updated containers or the first failure
(`Outcomes.Result`).

The code the reader calls but does not define are parameters of the model:

- the coordinate parser
- the Maven-id printer
- the start-order check
- the URL constructor
- the configuration decoder
- the attribute and directive unmarshallers

They are the function-valued fields of `FeatureModel.Env`. Every property
below therefore holds whatever these collaborators do.

Modules follow the reader's structure:

| module | file | reader part |
|---|---|---|
| `Outcomes` | outcomes.dfy | failures and results |
| `JsonValues` | json_values.dfy | the decoded tree and Java `toString` of scalars |
| `TypeGuard` | type_guard.dfy | `checkType`, `getProperty` |
| `Comments` | comments.dfy | `removeComments` |
| `Text` | text.dfy | `indexOf`, `Boolean.valueOf`, line joining |
| `Variables` | variables.dfy | `readVariables`, `replace` |
| `FeatureModel` | feature_model.dfy | feature entities, external collaborators |
| `ConfigurationReader` | configurations.dfy | `addConfigurations`, `readConfigurations` |
| `ArtifactLists` | artifacts.dfy | `readArtifacts`, `readBundles` |
| `FrameworkProperties` | framework_properties.dfy | `readFrameworkProperties` |
| `ExtensionKeys` | extension_keys.dfy | the `name:TYPE|optional` key grammar |
| `JsonBuild` | json_build.dfy | `build` |
| `Extensions` | extensions.dfy | `readExtensions` |
| `Prototypes` | prototypes.dfy | `readPrototype` |
| `Declarations` | declarations.dfy | `readRequirements`, `readCapabilities` |

## Model

All source paths refer to `src/main/java/org/apache/sling/feature/io/json/JSONReaderBase.java`.

| member | source | states |
|---|---|---|
| TypeGuard.Matches | src/main/java/org/apache/sling/feature/io/json/JSONReaderBase.java:486-497 | the scan over the allowed types finds a match exactly when some allowed kind admits the value, `null` being admitted only by the null kind |
| TypeGuard.CheckType | src/main/java/org/apache/sling/feature/io/json/JSONReaderBase.java:485-501 | a value passes iff it is an instance of one of the allowed kinds; otherwise the read fails with an `IOException` naming the key (the intended behaviour, also for `null`) |
| TypeGuard.CheckTypeAsWritten | src/main/java/org/apache/sling/feature/io/json/JSONReaderBase.java:498-499 | the check as written accepts and refuses the same values as the intended one, and fails identically for every refused value other than `null` |
| TypeGuard.CheckTypeNullDiscrepancy | src/main/java/org/apache/sling/feature/io/json/JSONReaderBase.java:498-499 | a `null` that is not allowed escapes as a `NullPointerException`, not an `IOException`, because the message calls `val.getClass()` |
| TypeGuard.GetProperty | src/main/java/org/apache/sling/feature/io/json/JSONReaderBase.java:139-146 | an absent or `null` entry gives no value; a string entry gives exactly the stored text; any other value fails with a type error for that key |
| Comments.RemoveComments | src/main/java/org/apache/sling/feature/io/json/JSONReaderBase.java:112-137 | after stripping, no map at any depth has a key starting with `#`; maps stay maps, lists stay lists of the same length |
| Comments.StripItems | src/main/java/org/apache/sling/feature/io/json/JSONReaderBase.java:129-137 | every list element is stripped in place: same length, element `i` is the stripped element `i` |
| Comments.StripMembers | src/main/java/org/apache/sling/feature/io/json/JSONReaderBase.java:112-126 | the stripped entries hold no comment key at any depth and are no more than the original entries |
| Comments.StripMembersFind | src/main/java/org/apache/sling/feature/io/json/JSONReaderBase.java:112-126 | looking a key up after stripping finds nothing for a comment key or an absent key, and otherwise finds the stripped original value |
| Comments.StripMembersKeys | src/main/java/org/apache/sling/feature/io/json/JSONReaderBase.java:112-126 | every non-comment key survives stripping, and stripping invents no key |
| Comments.RemoveCommentsIdentity | src/main/java/org/apache/sling/feature/io/json/JSONReaderBase.java:112-137 | a document without comment keys comes back unchanged |
| Comments.StripItemsIdentity | src/main/java/org/apache/sling/feature/io/json/JSONReaderBase.java:129-137 | a list without comment keys inside comes back unchanged |
| Comments.StripMembersIdentity | src/main/java/org/apache/sling/feature/io/json/JSONReaderBase.java:112-126 | a map without comment keys comes back unchanged |
| Comments.RemoveCommentsIdempotent | src/main/java/org/apache/sling/feature/io/json/JSONReaderBase.java:112-137 | stripping twice is the same as stripping once |
| Comments.ListScalarsKept | src/main/java/org/apache/sling/feature/io/json/JSONReaderBase.java:129-137 | a scalar inside a list is kept as it is, even a string starting with `#` |
| Variables.AddVariables | src/main/java/org/apache/sling/feature/io/json/JSONReaderBase.java:164-177 | on success every value was a string, boolean, number or `null`; the result lists one binding per entry, in order, with the value's text (none for `null`); every entry's key is written to the caller's map and no earlier key is lost; failures are type errors or duplicates |
| Variables.ReadVariables | src/main/java/org/apache/sling/feature/io/json/JSONReaderBase.java:155-180 | no variables section gives no variables and leaves the caller's map alone; a section that is not a map is a type error; otherwise its entries are read in order |
| Variables.AddVariablesSucceeds | src/main/java/org/apache/sling/feature/io/json/JSONReaderBase.java:164-177 | the section is accepted iff every value is a scalar or `null` and no key is already bound to a non-null value in the caller's map |
| Variables.AddVariablesDuplicate | src/main/java/org/apache/sling/feature/io/json/JSONReaderBase.java:169-171 | a duplicate-variable failure names a key of the section that the caller's map already bound to a non-null value |
| Variables.AddVariablesWrites | src/main/java/org/apache/sling/feature/io/json/JSONReaderBase.java:173-176 | after a successful read the caller's map holds each variable's text under its key, and every other key keeps its old value |
| Variables.ReplaceAllAbsent | src/main/java/org/apache/sling/feature/io/json/JSONReaderBase.java:267 | `String.replace` leaves a string without the target unchanged |
| Variables.ReplaceAllFirst | src/main/java/org/apache/sling/feature/io/json/JSONReaderBase.java:267 | `String.replace` keeps the text before the leftmost occurrence, puts the replacement there and continues after the occurrence, so it replaces every non-overlapping occurrence from left to right |
| Variables.ReplaceAll | src/main/java/org/apache/sling/feature/io/json/JSONReaderBase.java:267 | replacing the target by itself changes nothing, and a replacement as long as the target keeps the length |
| Variables.Replace | src/main/java/org/apache/sling/feature/io/json/JSONReaderBase.java:265-270 | substitution fails with a `NullPointerException` exactly when some variable is bound to `null` |
| Variables.ReplaceUnchanged | src/main/java/org/apache/sling/feature/io/json/JSONReaderBase.java:265-270 | a string that mentions no `${name}` of a bound variable comes back unchanged |
| Variables.ReplaceExample | src/main/java/org/apache/sling/feature/io/json/JSONReaderBase.java:265-270 | `g:a:${v}` with `v = 1.0` becomes `g:a:1.0` |
| Variables.ReplaceOrderMatters | src/main/java/org/apache/sling/feature/io/json/JSONReaderBase.java:265-270 | the substituted text depends on the order of the variables: with `a = ${b}` and `b = x`, `g:${a}` becomes `g:x` when `a` comes first and `g:${b}` when `b` does |
| FeatureModel.ParseId | src/main/java/org/apache/sling/feature/io/json/JSONReaderBase.java:245 | a coordinate is accepted exactly when the parser accepts it, with the parsed id; otherwise the read fails with an `IllegalArgumentException` carrying the text |
| ArtifactLists.ReadMetadata | src/main/java/org/apache/sling/feature/io/json/JSONReaderBase.java:248-255 | on success every entry other than `id` and `configurations` held a string, number or boolean, and the metadata keys are exactly those entries' keys; a failure is a type error |
| ArtifactLists.ReadMetadataValues | src/main/java/org/apache/sling/feature/io/json/JSONReaderBase.java:248-255 | for a map without a repeated key, the value under each metadata key is the Java text of the scalar stored under that key |
| ArtifactLists.ReadMetadataAccepts | src/main/java/org/apache/sling/feature/io/json/JSONReaderBase.java:248-255 | the metadata loop accepts an object iff every entry other than `id` and `configurations` holds a string, number or boolean |
| ArtifactLists.ReadEntry | src/main/java/org/apache/sling/feature/io/json/JSONReaderBase.java:227-261 | a comment string yields no artifact and any other accepted element yields one, whose id is the parse of the substituted coordinate; an object without `id` is refused; an object's own `configurations` must be a map and are added with the new artifact as their owner, and every other element leaves the configurations unchanged |
| ArtifactLists.ReadEntryAccepts | src/main/java/org/apache/sling/feature/io/json/JSONReaderBase.java:227-261 | an element is read iff it is accepted: a comment; a string whose substituted text parses; or an object with a string `id` that parses, scalar metadata, and own configurations (if any) forming a map the configuration reader accepts for that artifact |
| ArtifactLists.ReadObjectEntryAccepts | src/main/java/org/apache/sling/feature/io/json/JSONReaderBase.java:237-258 | the object half of that equivalence |
| ArtifactLists.OwnedConfigurationsAccepted | src/main/java/org/apache/sling/feature/io/json/JSONReaderBase.java:256-259 | once id and metadata are read, an object element ends with its own configurations: absent adds nothing, a non-map is a type error, otherwise they are added with the artifact as owner; the owner's metadata plays no part |
| ArtifactLists.Kept | src/main/java/org/apache/sling/feature/io/json/JSONReaderBase.java:230-234 | the elements kept are no comments, are all taken from the list, and include every element that is not a comment |
| ArtifactLists.ReadEntries | src/main/java/org/apache/sling/feature/io/json/JSONReaderBase.java:227-262 | on success there is one artifact per non-comment element and earlier configurations are kept as a prefix |
| ArtifactLists.ReadEntriesStep | src/main/java/org/apache/sling/feature/io/json/JSONReaderBase.java:227-262 | a list is read by reading its first element against the configurations so far and then the rest against the configurations that element left; the first element's artifact, if any, comes first |
| ArtifactLists.ReadEntryOwned | src/main/java/org/apache/sling/feature/io/json/JSONReaderBase.java:256-259 | one element adds exactly the configurations it owns: those decoded from its own `configurations`, tagged with its artifact |
| ArtifactLists.ReadEntriesConfigurations | src/main/java/org/apache/sling/feature/io/json/JSONReaderBase.java:227-262 | after a list, the configurations are the earlier ones followed by those owned by each non-comment element, in element order, each tagged with the artifact read from that element |
| ArtifactLists.OwnedAllCons | src/main/java/org/apache/sling/feature/io/json/JSONReaderBase.java:227-262 | putting an element in front puts its owned configurations in front |
| ArtifactLists.ReadEntriesProduces | src/main/java/org/apache/sling/feature/io/json/JSONReaderBase.java:227-262 | the `i`-th artifact is the one produced by the `i`-th non-comment element: its id is the parse of the element's coordinate after variable substitution; a string gives no metadata; an object gives metadata for exactly its keys other than `id` and `configurations`, each holding the Java text of that key's scalar value, `start-order` included |
| ArtifactLists.ReadEntriesShape | src/main/java/org/apache/sling/feature/io/json/JSONReaderBase.java:227-242 | a list is accepted only if every element is a string or an object carrying an `id` |
| ArtifactLists.ReadEntriesAccepts | src/main/java/org/apache/sling/feature/io/json/JSONReaderBase.java:227-262 | a list whose objects carry no configurations is read iff every element is well formed (a comment, a parsing coordinate string, or an object with a parsing string `id` and scalar metadata), and reading it leaves the configurations unchanged |
| ArtifactLists.ReadArtifacts | src/main/java/org/apache/sling/feature/io/json/JSONReaderBase.java:217-263 | a non-list is a type error for the section; on success each artifact comes from the matching non-comment element, in order: the id parsed from the substituted coordinate, and metadata holding exactly the element's other keys with the Java text of each scalar value; its metadata never holds `id` or `configurations`, and every object element had an `id`; the configurations are the earlier ones followed by those each element owns, in element order |
| ArtifactLists.ReadArtifactsAccepts | src/main/java/org/apache/sling/feature/io/json/JSONReaderBase.java:217-262 | a list whose objects carry no configurations is read iff every element is well formed |
| ArtifactLists.AddBundles | src/main/java/org/apache/sling/feature/io/json/JSONReaderBase.java:202-213 | on success the bundles are appended in order, all have a legal start order, and a container without duplicate ids stays without them; failures are duplicates or illegal start orders |
| ArtifactLists.AddBundlesSucceeds | src/main/java/org/apache/sling/feature/io/json/JSONReaderBase.java:202-213 | the list is accepted iff no bundle's id is already in the container or earlier in the list, and every start order is legal |
| ArtifactLists.ReadBundles | src/main/java/org/apache/sling/feature/io/json/JSONReaderBase.java:190-215 | no bundles section changes nothing; a non-list is a type error; on success the read artifacts are appended to the container, and its ids stay distinct |
| ArtifactLists.ReadBundlesAccepts | src/main/java/org/apache/sling/feature/io/json/JSONReaderBase.java:195-213 | a bundles section is read iff its list is read and every bundle it yields can be added |
| ConfigurationReader.Owned | src/main/java/org/apache/sling/feature/io/json/JSONReaderBase.java:293-307 | a configuration keeps all its decoded properties; with an owner it also gets the owner's Maven id under the reserved property, and without one it is unchanged |
| ConfigurationReader.TagAll | src/main/java/org/apache/sling/feature/io/json/JSONReaderBase.java:293-307 | every decoded configuration is tagged with the same owner, in order |
| ConfigurationReader.AddDecoded | src/main/java/org/apache/sling/feature/io/json/JSONReaderBase.java:293-314 | on success the tagged configurations are appended in order and none had defined the reserved property; failures are that property or a duplicate |
| ConfigurationReader.AddDecodedDistinct | src/main/java/org/apache/sling/feature/io/json/JSONReaderBase.java:308-313 | a container without equal configurations stays without them |
| ConfigurationReader.AddDecodedSucceeds | src/main/java/org/apache/sling/feature/io/json/JSONReaderBase.java:293-314 | the block is accepted iff no configuration defines the reserved property and none equals one already present or one before it |
| ConfigurationReader.AddConfigurations | src/main/java/org/apache/sling/feature/io/json/JSONReaderBase.java:272-315 | any decoder warning or error aborts with the warnings followed by the errors; otherwise the decoded configurations are added |
| ConfigurationReader.AddDecodedOwnerId | src/main/java/org/apache/sling/feature/io/json/JSONReaderBase.java:305-307 | the decoded configurations are added the same way for any two owners with the same id |
| ConfigurationReader.AddConfigurationsOwnerId | src/main/java/org/apache/sling/feature/io/json/JSONReaderBase.java:272-315 | reading a configurations block depends on its owner only through the owner's id |
| ConfigurationReader.ReadConfigurations | src/main/java/org/apache/sling/feature/io/json/JSONReaderBase.java:318-324 | no configurations section changes nothing; a non-map is a type error; otherwise the configurations are added without an owner |
| FrameworkProperties.AddFrameworkProperties | src/main/java/org/apache/sling/feature/io/json/JSONReaderBase.java:334-340 | on success every value was a scalar and every key is present; earlier properties are kept unchanged; no key comes from elsewhere; failures are type errors or duplicates |
| FrameworkProperties.ReadFrameworkProperties | src/main/java/org/apache/sling/feature/io/json/JSONReaderBase.java:326-343 | no section changes nothing; a non-map is a type error; otherwise its entries are added |
| FrameworkProperties.AddFrameworkPropertiesSpec | src/main/java/org/apache/sling/feature/io/json/JSONReaderBase.java:334-340 | the section is accepted iff every value is a scalar and no key is already present, and then each key holds its value's Java text |
| Text.IndexOfSpec | src/main/java/org/apache/sling/feature/io/json/JSONReaderBase.java:353-355 | `indexOf` is -1 iff the character is absent, and otherwise the position of its first occurrence |
| Text.BooleanValueOf | src/main/java/org/apache/sling/feature/io/json/JSONReaderBase.java:386 | only a four-character text can read as true |
| Text.BooleanValueOfExamples | src/main/java/org/apache/sling/feature/io/json/JSONReaderBase.java:386 | `true` in any letter case reads as true; `false`, the empty text, `yes` and `true ` read as false |
| Text.SplitJoinLines | src/main/java/org/apache/sling/feature/io/json/JSONReaderBase.java:418-423 | lines joined with a newline after each one split back into the same lines |
| Text.JoinLines | src/main/java/org/apache/sling/feature/io/json/JSONReaderBase.java:417-423 | the text has at least one character per line and, when there is a line, ends with a newline |
| ExtensionKeys.SplitKey | src/main/java/org/apache/sling/feature/io/json/JSONReaderBase.java:352-377 | every key splits into a name without `:`, an optional type without `|` and an optional flag, which compose back to the key; a key without `:` has no `|` in its name and a flag without `:` |
| ExtensionKeys.SplitComposeKey | src/main/java/org/apache/sling/feature/io/json/JSONReaderBase.java:352-377 | composing well-formed parts and splitting the result gives the parts back |
| ExtensionKeys.SplitsAs | src/main/java/org/apache/sling/feature/io/json/JSONReaderBase.java:352-377 | a key has exactly one well-formed split |
| ExtensionKeys.ParseExtensionType | src/main/java/org/apache/sling/feature/io/json/JSONReaderBase.java:385 | `valueOf` accepts exactly `ARTIFACTS`, `JSON` and `TEXT`, and refuses anything else with an `IllegalArgumentException` |
| ExtensionKeys.ParseTypeName | src/main/java/org/apache/sling/feature/io/json/JSONReaderBase.java:385 | every type's name reads back as that type |
| ExtensionKeys.KeyType | src/main/java/org/apache/sling/feature/io/json/JSONReaderBase.java:359-385 | a key without a type means ARTIFACTS; otherwise the type is the `valueOf` of its text |
| ExtensionKeys.KeyOptional | src/main/java/org/apache/sling/feature/io/json/JSONReaderBase.java:359-386 | a key without a flag is not optional; otherwise the flag reads as `Boolean.valueOf` of its text |
| ExtensionKeys.PlainKeyExample | src/main/java/org/apache/sling/feature/io/json/JSONReaderBase.java:359-363 | `foo` is a name alone |
| ExtensionKeys.FlaggedKeyExample | src/main/java/org/apache/sling/feature/io/json/JSONReaderBase.java:364-367 | `foo|true` is a name with a flag and no type |
| ExtensionKeys.TypedKeyExample | src/main/java/org/apache/sling/feature/io/json/JSONReaderBase.java:368-372 | `foo:TEXT` is a name with a type and no flag |
| ExtensionKeys.TypedFlaggedKeyExample | src/main/java/org/apache/sling/feature/io/json/JSONReaderBase.java:373-376 | `foo:TEXT|true` is a name, a type and a flag |
| ExtensionKeys.KeyExampleMeanings | src/main/java/org/apache/sling/feature/io/json/JSONReaderBase.java:359-386 | those four keys mean ARTIFACTS or TEXT, optional or not, as written |
| ExtensionKeys.LowerCaseTypeKeyExample | src/main/java/org/apache/sling/feature/io/json/JSONReaderBase.java:368-372 | `foo:text` splits with the type text `text` |
| ExtensionKeys.KeyTypeIsCaseSensitive | src/main/java/org/apache/sling/feature/io/json/JSONReaderBase.java:385-386 | the type text `text` is refused, while the flag `TRUE` reads as true |
| Extensions.TextLines | src/main/java/org/apache/sling/feature/io/json/JSONReaderBase.java:414-423 | a list of lines is accepted iff every element is a string, and the text is those strings each followed by a newline |
| Extensions.TextPayload | src/main/java/org/apache/sling/feature/io/json/JSONReaderBase.java:409-425 | a TEXT value is accepted iff it is a string or a list of strings; a string is taken verbatim; a list becomes its strings each followed by a newline; anything else is a type error |
| Extensions.TextPayloadLines | src/main/java/org/apache/sling/feature/io/json/JSONReaderBase.java:409-425 | the text of a list of newline-free strings splits back into exactly those strings |
| Extensions.TextPayloadExample | src/main/java/org/apache/sling/feature/io/json/JSONReaderBase.java:417-423 | `["l1", "l2"]` becomes `l1\nl2\n` |
| Extensions.AddExtensionArtifacts | src/main/java/org/apache/sling/feature/io/json/JSONReaderBase.java:393-398 | on success the artifacts are appended in order; a failure is a duplicate artifact for that extension |
| Extensions.AddExtensionArtifactsSucceeds | src/main/java/org/apache/sling/feature/io/json/JSONReaderBase.java:393-398 | the list is accepted iff no two artifacts of the extension share an id |
| Extensions.AddExtensionArtifactsFresh | src/main/java/org/apache/sling/feature/io/json/JSONReaderBase.java:393-398 | from an empty extension, the list is kept as it is and accepted iff its ids are distinct |
| Extensions.ArtifactsPayload | src/main/java/org/apache/sling/feature/io/json/JSONReaderBase.java:391-398 | the ARTIFACTS payload is built iff the value reads as an artifact list with no variables and its artifacts have distinct ids; the payload and configurations are exactly what that list read gives |
| Extensions.ReadPayload | src/main/java/org/apache/sling/feature/io/json/JSONReaderBase.java:390-426 | the payload always has the kind the type calls for: for ARTIFACTS, what reading the value as an artifact list with no variables gives, accepted iff that read succeeds with distinct ids; for JSON the rebuilt null-free structure, accepted iff the value is a map or list; for TEXT the text payload, accepted iff it is; only ARTIFACTS adds configurations |
| Extensions.ReadPayloadFrom | src/main/java/org/apache/sling/feature/io/json/JSONReaderBase.java:390-426 | every payload read is described independently of the configurations: the rebuilt tree, the text, or one artifact per non-comment list element read without variables, with distinct ids |
| Extensions.ReadExtension | src/main/java/org/apache/sling/feature/io/json/JSONReaderBase.java:352-428 | a reserved name is refused first, then a name already present, then an unknown type; past those checks the entry is read iff its payload is, and fails with the payload's error otherwise; an accepted extension has the key's name, type and flag and exactly the payload and configurations its type reads from the value |
| Extensions.ReadExtensionReadAs | src/main/java/org/apache/sling/feature/io/json/JSONReaderBase.java:352-428 | an extension read from an entry is named, typed, flagged and filled as that entry's key and value say |
| Extensions.AddExtensions | src/main/java/org/apache/sling/feature/io/json/JSONReaderBase.java:352-429 | on success one extension per key is appended after the existing ones, and earlier configurations are kept; with no keys the container and configurations come back unchanged |
| Extensions.KeysAdmissibleCons | src/main/java/org/apache/sling/feature/io/json/JSONReaderBase.java:378-383 | the names of a list of keys are admissible iff the first is neither reserved nor in the container and the rest are admissible once the first extension is added |
| Extensions.AddExtensionsAccepts | src/main/java/org/apache/sling/feature/io/json/JSONReaderBase.java:352-429 | the loop is accepted iff no key name is reserved, already present or repeated, and every key has a known type whose payload reads, given the configurations added by the payloads before it |
| Extensions.AddExtensionsNames | src/main/java/org/apache/sling/feature/io/json/JSONReaderBase.java:352-429 | the names of the new extensions are the names in the keys, in key order |
| Extensions.AddExtensionsAdmissible | src/main/java/org/apache/sling/feature/io/json/JSONReaderBase.java:378-428 | no new extension has a reserved name, and each one's payload matches its type |
| Extensions.AddExtensionsDistinct | src/main/java/org/apache/sling/feature/io/json/JSONReaderBase.java:381-383 | extensions with distinct names keep distinct names |
| Extensions.AddExtensionsReadAs | src/main/java/org/apache/sling/feature/io/json/JSONReaderBase.java:352-428 | the `i`-th new extension is read from the `i`-th key and value: the key's name, type and flag and the payload its type reads from the value |
| Extensions.ExtensionEntries | src/main/java/org/apache/sling/feature/io/json/JSONReaderBase.java:349-350 | the extension keys are exactly the document's keys that are not reader keywords |
| Extensions.ReadExtensions | src/main/java/org/apache/sling/feature/io/json/JSONReaderBase.java:345-430 | on success there is one new extension per non-keyword key, after the existing ones |
| Extensions.ReadExtensionsAccepts | src/main/java/org/apache/sling/feature/io/json/JSONReaderBase.java:345-430 | a document's extensions are accepted iff the names of its non-keyword keys are admissible and their payloads read in key order |
| Extensions.ReadExtensionsSound | src/main/java/org/apache/sling/feature/io/json/JSONReaderBase.java:345-430 | the new extensions are named by the non-keyword keys in order, the `i`-th is read from the `i`-th such key and its value, all are admissible, and the container stays free of duplicate names |
| JsonBuild.Build | src/main/java/org/apache/sling/feature/io/json/JSONReaderBase.java:432-476 | a map or list rebuilds to a null-free structure of the same kind; any other value rebuilds to `null` |
| JsonBuild.BuildItems | src/main/java/org/apache/sling/feature/io/json/JSONReaderBase.java:437-452 | a rebuilt list holds no `null` and is no longer than the original |
| JsonBuild.BuildMembers | src/main/java/org/apache/sling/feature/io/json/JSONReaderBase.java:458-472 | a rebuilt map holds no `null` and has no more entries than the original |
| JsonBuild.BuildIdentity | src/main/java/org/apache/sling/feature/io/json/JSONReaderBase.java:432-476 | a null-free structure rebuilds to itself |
| JsonBuild.BuildItemsIdentity | src/main/java/org/apache/sling/feature/io/json/JSONReaderBase.java:437-452 | a null-free list rebuilds to itself |
| JsonBuild.BuildMembersIdentity | src/main/java/org/apache/sling/feature/io/json/JSONReaderBase.java:458-472 | a null-free map rebuilds to itself |
| JsonBuild.BuildIdempotent | src/main/java/org/apache/sling/feature/io/json/JSONReaderBase.java:432-476 | rebuilding twice is the same as rebuilding once |
| JsonBuild.BuildMembersFind | src/main/java/org/apache/sling/feature/io/json/JSONReaderBase.java:458-472 | after rebuilding, a `null` entry or an absent key is gone, a structure is the rebuilt structure, and a scalar is unchanged |
| JsonBuild.BuildItemsCount | src/main/java/org/apache/sling/feature/io/json/JSONReaderBase.java:437-452 | a rebuilt list loses exactly its `null` elements |
| Prototypes.ParseIds | src/main/java/org/apache/sling/feature/io/json/JSONReaderBase.java:545-551 | on success every element was a string and there is one id per wanted element; a failure is a type error for the section or a bad coordinate |
| Prototypes.ParseIdsValues | src/main/java/org/apache/sling/feature/io/json/JSONReaderBase.java:545-551 | the `i`-th id is the parse of the `i`-th wanted string |
| Prototypes.ParseIdsAccepts | src/main/java/org/apache/sling/feature/io/json/JSONReaderBase.java:545-551 | a list of strings whose wanted ones all parse is accepted |
| Prototypes.ParseIdsIff | src/main/java/org/apache/sling/feature/io/json/JSONReaderBase.java:545-551 | a coordinate list is accepted iff every element is a string and every wanted one parses |
| Prototypes.ReadStrings | src/main/java/org/apache/sling/feature/io/json/JSONReaderBase.java:557-560 | a list is accepted iff every element is a string, and then gives those strings in order, comments included |
| Prototypes.OptionalList | src/main/java/org/apache/sling/feature/io/json/JSONReaderBase.java:553-556 | an absent removal list reads as empty; a present one must be a list and gives its elements |
| Prototypes.ReadExtensionRemoval | src/main/java/org/apache/sling/feature/io/json/JSONReaderBase.java:575-600 | a comment string removes nothing; a name or an object without `artifacts` removes the whole extension; an object with `artifacts` maps its name to the parsed ids, replacing any earlier entry for that name |
| Prototypes.ReadExtensionRemovals | src/main/java/org/apache/sling/feature/io/json/JSONReaderBase.java:571-602 | the whole-extension removals are the named elements in order, and the artifact removals are keyed by exactly the names of the elements with `artifacts` |
| Prototypes.ReadExtensionRemovalEntry | src/main/java/org/apache/sling/feature/io/json/JSONReaderBase.java:587-599 | an element with `artifacts` sets the entry for its name to its parsed ids; any other element leaves every entry of the artifact-removal map as it was |
| Prototypes.ReadExtensionRemovalAccepts | src/main/java/org/apache/sling/feature/io/json/JSONReaderBase.java:576-599 | an element is accepted iff it is a string, or a map with a string `name` whose `artifacts`, when present, is a list of strings that all parse |
| Prototypes.ReadExtensionRemovalsAccepts | src/main/java/org/apache/sling/feature/io/json/JSONReaderBase.java:571-602 | the extension removal list is accepted iff every element is |
| Prototypes.LastArtifactRemoval | src/main/java/org/apache/sling/feature/io/json/JSONReaderBase.java:587-596 | finds the last element with `artifacts` for a name: it qualifies, and no later element does; -1 when none does |
| Prototypes.ReadExtensionRemovalsValues | src/main/java/org/apache/sling/feature/io/json/JSONReaderBase.java:575-601 | when several elements give `artifacts` for the same name, the last one wins: the map holds the ids it lists, in order |
| Prototypes.ReadRemovals | src/main/java/org/apache/sling/feature/io/json/JSONReaderBase.java:537-602 | a non-map is a type error; each removal list that is present is read, and each absent one stays empty; the bundle removals are the coordinate reading of the bundle list, and the extension removals are the reading of the extension list |
| Prototypes.ReadRemovalsAccepts | src/main/java/org/apache/sling/feature/io/json/JSONReaderBase.java:537-602 | a `removals` value is accepted iff it is a map whose present lists have the right shape, whose bundle coordinates parse, and whose extension removals are all accepted |
| Prototypes.ReadRemovalsContents | src/main/java/org/apache/sling/feature/io/json/JSONReaderBase.java:541-602 | the `i`-th bundle removal is the parse of the `i`-th bundle coordinate that is not a comment; each extension in the artifact-removal map holds the ids of the last element with `artifacts` for it |
| Prototypes.ReadSource | src/main/java/org/apache/sling/feature/io/json/JSONReaderBase.java:515-535 | `location` wins over `id`: a string location that parses as a URL gives that URL and a bad one is refused with its text; a non-string location or id is a type error; without a location a string id gives its parsed coordinate or is refused with its text |
| Prototypes.ReadPrototype | src/main/java/org/apache/sling/feature/io/json/JSONReaderBase.java:503-609 | no prototype key means no prototype; a string is a bare prototype from that coordinate; any other non-map is a type error; a map needs `id` or `location`; a map is accepted iff its source reads and its `removals`, when present, read against that source; then the result is exactly that reading, or a bare prototype without `removals`; a failed source is reported unchanged |
| Prototypes.BundleRemovalsExample | src/main/java/org/apache/sling/feature/io/json/JSONReaderBase.java:545-551 | a bundle removal list with one coordinate and one comment removes just that coordinate |
| Prototypes.RemovalsExample | src/main/java/org/apache/sling/feature/io/json/JSONReaderBase.java:537-552 | a removals map with only bundles removes just those bundles |
| Prototypes.ReadPrototypeWithRemovals | src/main/java/org/apache/sling/feature/io/json/JSONReaderBase.java:503-606 | a prototype map with a readable source and readable removals yields exactly the prototype the removals describe |
| Prototypes.PrototypeExample | src/main/java/org/apache/sling/feature/io/json/JSONReaderBase.java:503-606 | a prototype given by `id` with one bundle removal reads as that prototype with that removal |
| Declarations.Unmarshal | src/main/java/org/apache/sling/feature/io/json/JSONReaderBase.java:628-634 | the map is accepted iff every entry unmarshals; every unmarshalled key is in the result, and the result has no other keys |
| Declarations.UnmarshalError | src/main/java/org/apache/sling/feature/io/json/JSONReaderBase.java:694-700 | a failure is the unchanged error of the first entry the unmarshaller refuses |
| Declarations.UnmarshalValues | src/main/java/org/apache/sling/feature/io/json/JSONReaderBase.java:628-642 | a key that no later entry also unmarshals to holds the value its entry unmarshalled to, and a key already present that no entry unmarshals to keeps its value |
| Declarations.ReadDeclarationValues | src/main/java/org/apache/sling/feature/io/json/JSONReaderBase.java:618-645 | in the record read, each attribute and directive whose key no later entry repeats holds the value its entry unmarshalled to |
| Declarations.ReadDecoded | src/main/java/org/apache/sling/feature/io/json/JSONReaderBase.java:628-642 | absent attributes or directives read as an empty map; a non-map is a type error for that part; otherwise its entries are unmarshalled |
| Declarations.ReadDeclaration | src/main/java/org/apache/sling/feature/io/json/JSONReaderBase.java:618-645 | a non-map element is a type error and a missing namespace is refused; an element is accepted iff it is a map whose namespace is a string and whose attributes and directives unmarshal, and then the record holds exactly those |
| Declarations.ReadEach | src/main/java/org/apache/sling/feature/io/json/JSONReaderBase.java:618-646 | on success one record per element is appended after the existing ones, the `i`-th being the reading of element `i`; a list whose elements all read is accepted |
| Declarations.ReadEachError | src/main/java/org/apache/sling/feature/io/json/JSONReaderBase.java:618-646 | a failure is the error of the first element that does not read |
| Declarations.ReadDeclarations | src/main/java/org/apache/sling/feature/io/json/JSONReaderBase.java:611-648 | an absent section changes nothing; a non-list is a type error for the section key; otherwise its elements are read in order |
| Declarations.ReadRequirements | src/main/java/org/apache/sling/feature/io/json/JSONReaderBase.java:611-648 | an absent section changes nothing; a non-list is a type error; on success the `i`-th new requirement is the reading of element `i`, after the existing ones |
| Declarations.ReadCapabilities | src/main/java/org/apache/sling/feature/io/json/JSONReaderBase.java:650-687 | the same for capabilities |
| Declarations.PlainDeclaration | src/main/java/org/apache/sling/feature/io/json/JSONReaderBase.java:618-645 | a record with only a namespace reads with empty attributes and directives |

## Left out

- Parsing and minifying the JSON text (`minify`, `getJsonMap`) is left out. They are I/O over a `Reader` through JSMin and `JSONUtil`, so the model starts from the decoded tree.
- Messages and `exceptionPrefix` are left out. A failure is a tag plus the offending text, not the exact message.
- Iteration order of `HashMap` and `HashSet` is not modelled. Java visits map entries, variables and extension keys in an unspecified order; the model visits them in document order. Which of several errors is reported first may therefore differ, and so may the order of anything appended while iterating. Variable substitution can even give a different text (next line).
- Variables.Replace: the variables are substituted one by one in document order, where Java uses the iteration order of the variables `HashMap`. When one variable's value holds another variable's placeholder, the result depends on that order. With `a` bound to `${b}` and `b` to `x`, `g:${a}` becomes `g:x` when `a` comes first and `g:${b}` when `b` comes first (`Variables.ReplaceOrderMatters`).
- Writing the JSON extension to text with `JsonWriter` is left out. The extension keeps the rebuilt tree (`JsonBuild.Build`), not its printed form.
- `JSONConstants`, `Configuration` and `ManifestUtils` are not part of this model:
  - Section names are the names of the feature format ("bundles", "id", "location", …).
  - The reserved feature keywords (`FEATURE_KNOWN_PROPERTIES`) are `Env.featureKeywords`.
  - The owning-artifact property is `Env.artifactIdProperty`.
  - The artifact keys that are not metadata are taken as `id` and `configurations`.
  - `Configuration.equals`, used for the duplicate test at `JSONReaderBase.java:309`, is taken as equality of the whole record: the same pid and the same properties, the owner property included (`Configurations.AddDecoded`). If it compared pids only, the reader would refuse blocks that `Configurations.AddDecodedSucceeds` accepts.
  - `Artifact.equals`, used by `ext.getArtifacts().contains(a)` at `JSONReaderBase.java:394`, is taken as equality of ids, metadata ignored (`Extensions.AddExtensionArtifacts` through `ArtifactLists.ContainsExact`). If it also compared metadata, two artifacts with one id and different metadata would be accepted where the model refuses them.
- The external code is not modelled; its results are parameters of `Env`. This covers `ArtifactId.parse`, `toMvnId`, `getStartOrder`, `new URL`, `JSONUtil.readConfigurationsJSON` and the attribute and directive unmarshallers.
- The `rethrowBiConsumer` shim is not modelled separately. The unmarshallers return a `Result`, and the first failure is passed on unchanged (`Declarations.UnmarshalError`).
- Doubles are opaque. A double carries only its Java text, because the reader only copies it or prints it.
- Extensions.TextPayload: a non-string element of a TEXT list is reported with the section key `Text Extension <name>`. The source also appends `, value <element>` to that key.
- Extensions.ReadExtension: the payload is tied to `Extensions.ReadPayload` for the configurations read before the key. `Extensions.AddExtensionsReadAs` describes each payload independently of them. For an ARTIFACTS extension this description gives the artifacts but not which configurations the list added.
- ArtifactLists.ReadEntriesProduces: the metadata values are stated for objects without a repeated key. A decoded JSON map never repeats a key; on a list of members with repeats the value kept is the last one read, while a lookup finds the first.
- ArtifactLists.ReadArtifacts: the same restriction on the metadata values, for the same reason.
- ArtifactLists.ReadEntries: the contract does not say which element's error a failed list reports.
- ArtifactLists.ReadEntriesAccepts: acceptance of a whole list is stated only for lists whose objects carry no configurations of their own. Owned configurations make acceptance depend on what earlier elements added. For such lists acceptance is stated element by element, given the configurations read so far (`ArtifactLists.ReadEntryAccepts`).
- ArtifactLists.ReadArtifactsAccepts: the same restriction, for the same reason.
- Where the documentation and the code disagree, the model follows the code:
  - A variable bound to `null` is described as later substituting a literal text. In the code, `String.replace(target, null)` throws a `NullPointerException` whenever substitution runs (`Variables.Replace`).
  - The extension type in a key is matched case-sensitively by `ExtensionType.valueOf` (`ExtensionKeys.KeyTypeIsCaseSensitive`).

## Findings

| source | as written | input that shows it | evidently intended | confidence | as-written member | corrected member |
|---|---|---|---|---|---|---|
| src/main/java/org/apache/sling/feature/io/json/JSONReaderBase.java:498-499 | the refusal message calls `val.getClass()`, so a refused `null` throws `NullPointerException` before the `IOException` is built | the document `{"bundles": null}`: `readBundles` checks `null` against `List` only | every refused value, `null` included, is reported as an `IOException` naming the key | not executed | TypeGuard.CheckTypeAsWritten | TypeGuard.CheckType |

The readers use the corrected `TypeGuard.CheckType` throughout. `TypeGuard.CheckTypeNullDiscrepancy` proves that the two differ on a refused `null`.
