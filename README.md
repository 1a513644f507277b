# Hyperalert correlation core of Snort_AIPreproc, modelled in Dafny

The AI preprocessor for Snort groups alerts and correlates them through
*hyperalerts*. A hyperalert describes one Snort rule, named by its
`<gid>-<sid>-<rev>` key. It lists the pre-conditions the attack needs and
the post-conditions it brings about, as text with macros in it. This project
models the three steps of the correlation thread in `correlation.c`:

* **Knowledge loading.** `_AI_hyperalert_from_XML` reads the file
  `<gid>-<sid>-<rev>.xml` of a key. It walks the file's reader events with a
  table of four "inside this tag" flags: `hyperalert`, `snort-id`, `pre` and
  `post`.
  * It checks the `snort-id` text against `"<gid>.<sid>.<rev>"`.
  * It collects every `pre` and `post` text.
  * It treats an unknown tag name, a tag opened twice, a tag other than
    `hyperalert` opened outside `hyperalert`, and a tag closed without being
    open as fatal errors.

  This is module `KnowledgeParser` (`parser.dfy`). It has a pure state
  machine (`Step`, `Run`, `Parse`) and a loop method (`LoadHyperalert`)
  proved equal to it.
* **Macro substitution.** `_AI_macro_subst` takes each pre- and
  post-condition of an alert's hyperalert and rewrites it in place:
  * it removes every space;
  * it replaces `+SRC_ADDR+`, `+DST_ADDR+`, `+ANY_ADDR+`, `+SRC_PORT+`,
    `+DST_PORT+` and `+ANY_PORT+` with the alert's own addresses and ports.

  This is module `Macros` (`macros.dfy`). It builds on the string operations
  in `Strings` (`strings.dfy`) and the alert records in `Alerts` (`alerts.dfy`).
* **The correlation pass.** For each clustered alert, the thread does these
  steps:
  1. It looks the alert's key up in its hyperalert hash table.
  2. On a miss it parses the knowledge file. When the parse returns
     nothing, it skips the alert. When the parse succeeds, it caches the
     description.
  3. It hangs a deep copy of the description on the alert.
  4. It runs macro substitution on that copy.

  This is module `Correlation` (`correlation.dfy`). The class `Correlator`
  owns the cache (`hyperalerts`). Its `CorrelateBatch` method is proved
  against `Walk`, a pure replay of the same pass.

Reader events are modelled as a sequence of `Open(name)`, `Close(name)`,
`Text(value)` and `Other`. A knowledge file that does not exist is `None`. The knowledge
directory is a map from key to event stream.

## Model

| member | source | states |
|---|---|---|
| KnowledgeParser.LoadHyperalert | correlation.c:162-290 | The reading loop, run to its end or to its first stop, yields exactly the outcome of the state machine `Parse`: a description, "no hyperalert" (NULL), or a fatal error |
| KnowledgeParser.RecogniseIff | correlation.c:198-228 | A tag name is taken as one of the four tags exactly when it equals that tag's name ignoring letter case, i.e. when its lower-case form is the tag name |
| KnowledgeParser.RecogniseTagName | correlation.c:200-226 | Each tag's own name is recognised as that tag |
| KnowledgeParser.StepFatalIff | correlation.c:198-254 | One event is fatal exactly when it opens or closes a name that is no tag, opens a tag already open, opens snort-id, pre or post outside hyperalert, or closes a tag that is not open. Text and other nodes never abort |
| KnowledgeParser.TextPlacement | correlation.c:255-283 | A text node never changes a flag. Inside snort-id it stops the parse with "not found" exactly when it differs from `<gid>.<sid>.<rev>`. Otherwise it becomes the last precondition inside pre, else the last postcondition inside post, and is dropped elsewhere |
| KnowledgeParser.RunAppend | correlation.c:193-285 | Reading a stream in two pieces is reading the first piece and then continuing with the second from where it stopped |
| KnowledgeParser.DoubleOpenFatal | correlation.c:200-226 | Opening the same tag twice in a row is always a fatal error, whatever the state and whatever follows |
| KnowledgeParser.DoubleOpenAnywhere | correlation.c:200-226 | A file whose reading reaches a repeated opening tag without stopping earlier is rejected as fatal |
| KnowledgeParser.MismatchIsNotFound | correlation.c:259-270 | A snort-id text that differs from the key's `<gid>.<sid>.<rev>` makes the whole load return "no hyperalert", whatever follows it |
| KnowledgeParser.StopIsNeverFound | correlation.c:193-289 | A reading that stops early never yields a description |
| KnowledgeParser.FoundKey | correlation.c:181 | A description produced by loading a key carries that key |
| KnowledgeParser.RunOnlyAppends | correlation.c:271-283 | Reading only appends conditions; the lists collected so far stay as prefixes |
| KnowledgeParser.RunElement | correlation.c:213-226 | With only hyperalert open, one `<pre>v</pre>` (or `<post>v</post>`) element appends v to the preconditions (postconditions) and restores the flags |
| KnowledgeParser.RunElements | correlation.c:213-283 | A run of pre (or post) elements appends their texts in order |
| KnowledgeParser.RunHead | correlation.c:200-270 | An opening hyperalert tag followed by a matching snort-id element leaves the reader inside the hyperalert with no condition collected |
| KnowledgeParser.RunBody | correlation.c:213-283 | The pre elements, the post elements and the closing hyperalert tag collect exactly those conditions and clear every flag |
| KnowledgeParser.ParseTwoPieces | correlation.c:193-289 | If a file reads in two pieces without stopping, the load returns the conditions of the final state under the requested key |
| KnowledgeParser.ParseDocument | correlation.c:162-290 | A well-formed knowledge document for a key, with any lists of pre and post texts, loads as exactly the description with those lists in document order |
| KnowledgeParser.EmptyStreamIsFound | correlation.c:193-289 | An event stream with no element at all loads as a description with no conditions. No file read without a reader error yields such a stream, since a readable file has a root element |
| KnowledgeParser.RootMustBeHyperalert | correlation.c:198-228 | A file whose root element is not `hyperalert` (in any letter case) is fatal at its first node, whatever follows |
| KnowledgeParser.BareHyperalertIsFound | correlation.c:193-289 | The file `<hyperalert/>` loads as a description with no conditions: no snort-id element is required |
| KnowledgeParser.UnclosedTagsAccepted | correlation.c:193-289 | Tags still open at the end of the file are not an error; the text read so far is kept |
| KnowledgeParser.PreInsideSnortId | correlation.c:206-283 | A pre element may open inside snort-id; after snort-id closes, the pending text is taken as a precondition |
| KnowledgeParser.MismatchBeforeDoubleOpen | correlation.c:206-270 | A wrong snort-id returns "no hyperalert" before a later repeated tag could make the file fatal |
| Alerts.SnortId | correlation.c:259-262 | The expected snort-id text of any key, each field printed by `%d` as a signed 32-bit int, fits the 1024-byte buffer it is printed into |
| Alerts.SnortIdInjective | correlation.c:259-262 | Two keys with the same `<gid>.<sid>.<rev>` text are the same key, so the snort-id check names one rule |
| Alerts.AddressText | correlation.c:66-67 | The text of an IPv4 address is non-empty, made of digits and dots only, and fits INET_ADDRSTRLEN |
| Alerts.PortText | correlation.c:86-87 | The text of a port is a non-empty decimal that fits the 10-byte port buffer |
| Alerts.AlertHyperalert.Copy | correlation.c:343-360 | The copy holds the same key and the same condition texts in the same order, in arrays freshly allocated and shared with nothing |
| Strings.SameIgnoringCaseIff | correlation.c:200-254 | Case-insensitive equality of two names is equality of their lower-case forms |
| Strings.DecimalRoundTrip | correlation.c:259-262 | Printing a number in decimal and reading it back gives the number |
| Strings.IntToDecimalInjective | correlation.c:259-262 | Different integers print as different decimal texts |
| Strings.IndexOf | correlation.c:65-103 | The search for a placeholder returns its first occurrence, or -1 exactly when there is none |
| Strings.StripSpaces | correlation.c:62 | Removing spaces leaves no space, keeps every other character, and leaves text without spaces as it is |
| Strings.StripSpacesAppend | correlation.c:62 | Spaces are removed piece by piece: stripping a concatenation is concatenating the stripped pieces, so the characters kept stay in order and keep their multiplicity |
| Strings.StripSpacesChar | correlation.c:62 | A single character is dropped exactly when it is a space |
| Strings.ReplaceFirstAt | correlation.c:65-103 | Replacing a placeholder that occurs once puts the value exactly where it stood |
| Strings.ReplaceFirstEliminates | correlation.c:65-103 | Replacing a placeholder that occurs at most once, by a value that shares no character with it, leaves no occurrence of it |
| Strings.ReplaceFirstKeepsAbsent | correlation.c:65-103 | A replacement by a value sharing no character with another placeholder cannot create that placeholder |
| Strings.ReplaceWord | correlation.c:65-103 | Replacing a placeholder that occurs once among the marked words of a text puts the value at that word and changes nothing else |
| Strings.ReplaceFirstAtFirst | correlation.c:65-103 | The replacement happens at the first occurrence of the placeholder, whatever follows it |
| Strings.ReplaceFirstLeavesLater | correlation.c:65-103 | Only the first occurrence is replaced: a second occurrence of the same placeholder is still there afterwards |
| Strings.OccurrenceSurvives | correlation.c:65-103 | Every occurrence of such a placeholder after a replacement was already there before it, outside the inserted value |
| Macros.MacroTable | correlation.c:65-104 | The six macros are applied in source order, each placeholder bound to the alert's matching address or port text |
| Macros.PlaceholdersDistinct | correlation.c:65-104 | The six placeholders are pairwise distinct |
| Macros.MacroTableWellFormed | correlation.c:65-104 | In every alert's table the six placeholders are distinct, each value is non-empty text of digits and dots, so no value shares a character with a placeholder or contains a space |
| Macros.SubstituteSix | correlation.c:65-104 | Substitution is the six single replacements applied one after the other in order |
| Macros.SubstituteIdentity | correlation.c:65-104 | A condition holding no placeholder is left unchanged by the replacements |
| Macros.SubstituteEliminates | correlation.c:65-104 | When each placeholder occurs at most once, none is left after substitution |
| Macros.SubstituteSingle | correlation.c:65-104 | A condition with a single placeholder and no other gets exactly that placeholder's value in its place |
| Macros.ExpandHasNoSpaces | correlation.c:58-105 | A rewritten condition contains no space |
| Macros.ExpandKeepsPlainCondition | correlation.c:58-105 | A condition with no spaces and no placeholder is returned unchanged |
| Macros.ExpandRemovesPlaceholders | correlation.c:58-105 | When each placeholder occurs at most once in the stripped condition, none is left after rewriting |
| Macros.ExpandSinglePlaceholder | correlation.c:58-105 | A condition whose stripped text holds exactly one placeholder becomes that text with the alert's value in its place |
| Macros.MarkedStep | correlation.c:65-104 | Each replacement turns its own placeholder, where it stands in the text, into its value, and leaves the text as it is when that placeholder is absent |
| Macros.SubstituteMarked | correlation.c:65-104 | When each placeholder occurs at most once, every placeholder present is replaced by its own value where it stands and the text between them is unchanged |
| Macros.ExpandPlaceholders | correlation.c:58-105 | A condition whose stripped text holds any number of distinct placeholders, each once, becomes that text with each placeholder replaced in place by the alert's value for it |
| Macros.ExpandTwoPlaceholders | correlation.c:58-105 | A condition with two different placeholders, each once, gets both values in place, whatever their order in the text |
| Macros.ReplaceIfFound | correlation.c:65-70 | One search-and-replace step yields the first-occurrence replacement, or the text unchanged when the placeholder is missing |
| Macros.RewriteCondition | correlation.c:58-105 | Rewriting one condition step by step gives exactly the stripped and substituted condition |
| Macros.ExpandInPlace | correlation.c:58-105 | Every entry of a condition array is replaced by its rewritten form and nothing else changes |
| Macros.MacroSubst | correlation.c:46-154 | Every precondition and postcondition of the alert's hyperalert is replaced in place by its rewriting with the alert's own flow |
| Correlation.LoadsFromKeyed | correlation.c:181 | A loader that reads the knowledge base returns descriptions carrying the requested key |
| Correlation.KeysOf | correlation.c:326-328 | The keys looked up are the alerts' own `(gid, sid, rev)`, one per alert, in order |
| Correlation.HitIgnoresFiles | correlation.c:329-332 | A key already in the table is answered from it, whatever the knowledge files now say |
| Correlation.RecordOnlyAddsLoaded | correlation.c:332-339 | One lookup never changes or removes a cached entry. It adds one entry only when the key was a miss that parsed to a description, and the entry is that description |
| Correlation.ResolveConsistent | correlation.c:326-339 | A lookup answers with a description of the key asked for, and keeps every cached entry filed under its own key |
| Correlation.Correlator.Lookup | correlation.c:326-339 | The cache answers a lookup as the resolution function says, records only a freshly parsed description, and stays consistent |
| Correlation.Attach | correlation.c:343-362 | The alert gets a fresh hyperalert with the description's key and every condition rewritten with the alert's flow |
| Correlation.Correlator.Correlate | correlation.c:323-368 | One alert is resolved and the cache updated as in `Lookup`. A described alert gets a fresh, macro-expanded copy of a description with its own key. An unknown alert is left untouched |
| Correlation.Correlator.CorrelateBatch | correlation.c:323-368 | The pass leaves the cache and the abort flag exactly as the replay `Walk` does. Each processed alert is handled as its resolution says, and alerts after a fatal error are untouched |
| Correlation.WalkPrefix | correlation.c:323-368 | Processing more alerts only extends the results, and nothing happens after a fatal error |
| Correlation.WalkAt | correlation.c:323-368 | The result for the j-th alert is the resolution of its key against the table as left by the alerts before it |
| Correlation.TableGrows | correlation.c:329-339 | The cache only grows during a pass: an entry, once there, keeps its description |
| Correlation.TableSources | correlation.c:332-339 | Every entry added during a pass comes from an alert of that key whose knowledge file was parsed |
| Correlation.WalkTable | correlation.c:323-368 | After a pass, a key is cached exactly when it was cached before or some processed alert with that key loaded it; old entries are unchanged |
| Correlation.ConsistentPrefix | correlation.c:326-339 | Each prefix of the pass keeps every cached description filed under its own key |
| Correlation.WalkConsistent | correlation.c:323-368 | After a pass, the cache is consistent and every alert given a description got the one for its own key |
| Correlation.LaterProbeHits | correlation.c:329-339 | Once a key has a description, every later alert with that key is answered from the cache with the same description |
| Correlation.UnknownIsRetried | correlation.c:332-336 | A key whose knowledge file yields nothing is not cached: a later alert with that key parses again and again gets nothing |

## Left out

- `modules.c` and everything outside `correlation.c` lines 46-368 are not part of this model. That includes the stream, cluster and alert-log modules, and the configuration parser.
- The libxml2 reader is left out. A knowledge file is modelled as the sequence of its element-open, element-close and text events. Any other node (a comment, whitespace, a nameless node) is an `Other` event that the loop skips. Attributes and entity handling are not modelled. A self-closing element such as `<pre/>` reaches the code as an element node with no end-element node, so it is an `Open` with no matching `Close`: its flag stays set. After `<snort-id/>` every later text is checked as the snort-id, so the first condition text gives "no hyperalert" (`MismatchIsNotFound`); after `<pre/>` a later `<pre>` is a fatal double open (`DoubleOpenAnywhere`).
- `stat` and `xmlReaderForFile` failures are left out. A file that cannot be read is `None`, which loads as "no hyperalert".
- The knowledge files are taken as fixed during one pass: `CorrelateBatch` reads one map from key to file. The code checks the file again on every miss (correlation.c:185-191), so a file created or changed during a pass would be picked up by a later alert; `UnknownIsRetried` does not cover that case.
- The loop `while (xmlTextReaderRead(xml))` (correlation.c:193) also runs on the reader's error result -1, which is non-zero. The event stream has no error case, so what the code does after a reader error is not modelled.
- The thread's own loop, its `sleep`, the rules-directory `stat` and `pthread_exit` are left out. `CorrelateBatch` models one pass over one alert list.
- Fetching the clustered alerts and freeing them (`AI_get_clustered_alerts`, `AI_free_alerts`) are left out, because they belong to the cluster module.
- The debug writes to a fixed log file after each substitution are left out, because that is file I/O with no effect on the model's state.
- The `malloc` failure paths are left out. They call the fatal-message hook and allocation cannot fail in Dafny.
- On a snort-id mismatch the loader returns without freeing its partial description or its reader. `xmlFreeTextReader` and `xmlCleanupParser` are not modelled either, because memory reclamation is not observable here.
- The C types of gid, sid and rev are declared in a header that is not part of this model. They are taken as unsigned 32-bit fields printed by `%d` as signed ints (`AsCInt`), so a key with a field of 2^31 or more expects a negative number in its snort-id text. The same reading would apply to the file name printed at correlation.c:181-182, which the model replaces by a map from key to file.
- Network byte order of addresses and ports is left out. An address is its four octets, printed in dotted decimal, and a port is its numeric value.
- `str_replace` and `str_replace_all` are not part of this model. Their behaviour is assumed: `str_replace` replaces the first occurrence (`ReplaceFirst`), and `str_replace_all(s, " ", "")` removes every space (`StripSpaces`).
- Concurrency is left out. The hash table is touched only by the correlation thread, which is modelled sequentially.
- A fatal error in a knowledge file ends the program through the fatal-message hook. It is modelled as a `Broken` resolution that halts the pass; the process exit behind it and the message text are not modelled.
- Correlation.Correlator.CorrelateBatch: it states freshness of each attached hyperalert only through `Correlate`. The batch contract says which alerts were handled and how, but not that their hyperalerts are new objects.
- Correlation.Correlator.CorrelateBatch: it requires the alerts in the list to be distinct objects. A linked list of clustered alerts has no repeated node.
- The loader is a ghost parameter `load` tied to the knowledge base by `LoadsFrom`; `LoaderOfLoads` shows that the function of the knowledge base meets it. This keeps the parser's definition out of the heap proofs.

### Where the code is more lenient than the file format suggests

The model follows the code. These behaviours are proved about the model, except where a line says otherwise:

- Nothing checks that tags are closed at the end of the file (`UnclosedTagsAccepted`).
- No snort-id element is required: `<hyperalert/>` alone loads as an empty description (`BareHyperalertIsFound`). The root element itself must be `hyperalert` (`RootMustBeHyperalert`).
- A pre or post tag may open inside snort-id. The text after snort-id closes is taken as a condition (`PreInsideSnortId`).
- A snort-id mismatch returns "no hyperalert" before any later structural error is seen (`MismatchBeforeDoubleOpen`).
- Each macro replaces only the first occurrence of its placeholder, assuming `str_replace` replaces only the first occurrence (see Left out); one might expect every occurrence to be replaced (`ReplaceFirstLeavesLater`).
- All placeholders begin and end with `+`, so two can overlap (`+SRC_ADDR+DST_ADDR+`). The order of the six replacements therefore matters; `MacroTable` fixes it to the source order. The lemmas about rewriting require at most one occurrence, or absence, of each placeholder.
- Only the space character is removed from a condition (correlation.c:62, :110). Tabs and newlines inside a pre or post text stay in the rewritten condition; `ExpandHasNoSpaces` is about `' '` only.
- A key whose file yields nothing is not cached, so it is parsed again for every alert with that key (`UnknownIsRetried`).
