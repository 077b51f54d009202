# Troyonix financial AI: vault, labelling, SEC selection and retries in Dafny

This project models four parts of the Troyonix financial sentiment pipeline and proves properties of each part.

- **Password-based secrets vaults.** There are two of them.
  - The secure-data vault (`secure_data_utils.py`) writes a fresh 16-byte salt to `{path}.salt` and the Fernet token to `{path}`.
  - The configuration vault (`config_utils.py`) keeps the configuration in one of two forms:
    - encrypted at `{path}.enc`, with its salt at `{path}.salt`;
    - as plain JSON at `{path}`.
  - Also modelled: the HMAC integrity check over the key-sorted JSON, and the redactor that masks sensitive string fields.
- **Training-data labelling** (`prepare_training_data.py`):
  - the text cleaner;
  - the keyword-count sentiment rule keyed on the SEC form type;
  - the `_`-separated filename parser;
  - the FRED and policy-uncertainty description filters;
  - the passes that append examples to the preparer's list;
  - the keep-first de-duplication.
- **SEC filing selection** (`download_sec_filings.py`):
  - the per-form quota loop over a company's recent filings;
  - CIK padding;
  - the archive URL;
  - the file name, which round-trips with the parser above.
- **The retry loop of `make_api_request`** (`api_utils.py`) over an abstract sequence of replies, together with `get_headers`.

## How the model is built

**Library calls.** Foreign library calls form one datatype of function values, `Primitives.Primitives`. They are PBKDF2-HMAC-SHA256, URL-safe base64, Fernet, HMAC-SHA256, UTF-8 encoding, and `json.dumps`/`json.loads`. Their internals are not modelled. The ghost predicate `Primitives.Sound` states the only properties the proofs use:
- PBKDF2 yields 32 bytes;
- a base64url-encoded 32-byte string is a Fernet key;
- Fernet decryption inverts encryption under the same key;
- `json.loads` inverts both serialisations of a well-formed value;
- a hex digest is 64 lower-case hex digits.

`Sound` appears only as a `requires` of lemmas.

**Randomness.** Salts drawn from `os.urandom(16)` and the Fernet nonce are explicit parameters.

**The file system.** It is the class `FileSystem.Disk`, with these fields:
- `files: map<string, bytes>`;
- a set of `denied` paths, where writes and removals fail;
- a set of `unreadable` paths, which exist but cannot be opened for reading (no read permission, or a directory);
- a ghost `trace` of reads, writes and removals.

Each save and load routine is a method on a `Disk`. Its contract ties it to a function returning the result together with the events. `FileSystem.Replay` turns those events into the new file map.

**JSON.** An object is its entries in insertion order. `json.dumps(..., sort_keys=True)` is modelled as `dumps` of `JsonValue.Canonical`, which sorts keys recursively. Numbers are integers. CPython refuses to convert an integer of more than 4300 digits to text, so `json.dumps` raises on such a value. `JsonValue.Serialisable` says a value has no such integer. Every save and the integrity check take the failing branch for a value that is not serialisable.

**Network replies and write outcomes** are oracles passed as parameters:
- the submissions reply for each CIK;
- whether each filing fetch succeeds and what it returns;
- whether each path can be written;
- the reply of each retry attempt.

**Sleeps.** They appear only as `Sleep` events in the retry trace. The other sleeps and all printing and logging are left out.

**Where the code and its own comments disagree, the model follows the code.** Three cases:
- `clean_text` replaces `"` by `"`, which changes nothing (src/preprocessing/prepare_training_data.py:60).
- Its mojibake replacements and tag removal cannot change anything. Both mojibake patterns contain `€` (U+20AC), and a tag needs `<`. Neither is a word character, whitespace or listed punctuation, so the character filter just before them has already turned every `€` and `<` into a space. This holds for Unicode `\w` too, since `€` is a currency symbol. `TextCleaning.CleanStepsAreNoOps` proves it for the model's filter.
- An exception inside a policy file's item loop abandons the rest of that file. The examples that file had already appended stay.

## Model

| member | source | states |
|---|---|---|
| Redactor.MaskValue | src/utils/secure_data_utils.py:132-135 | the mask has the value's length; a value of at most 4 characters becomes all `*`; a longer one keeps its first two and last two characters with `*` in between |
| Redactor.MaskIdempotent | src/utils/secure_data_utils.py:132-135 | masking a masked value changes nothing |
| Redactor.Sanitized | src/utils/secure_data_utils.py:137-146 | a dict stays a dict with the same keys in the same order; any other value is returned unchanged, where the source would raise (see Left out) |
| Redactor.SanitizedEntries | src/utils/secure_data_utils.py:139-145 | entry by entry: a dict value is sanitized whatever its key; a string value is masked exactly when its key is sensitive; every other value passes through |
| Redactor.SanitizedKeys | src/utils/secure_data_utils.py:137-146 | the output has exactly the input's key set, and distinct keys stay distinct |
| Redactor.SanitizeIdempotent | src/utils/secure_data_utils.py:125-148 | sanitizing a sanitized payload changes nothing |
| Redactor.SanitizeDict | src/utils/secure_data_utils.py:137-146 | the loop over `d.items()` builds a fresh result equal to the sanitized value; the input is not changed |
| Redactor.IsSensitiveKey | src/utils/secure_data_utils.py:142 | a key is sensitive when its lower-cased form contains one of the sensitive terms; see `SensitiveExamples` and `NameNotSensitive` |
| Redactor.SensitiveExamples | src/utils/secure_data_utils.py:127-142 | `"monkey"` and `"API_KEY"` are sensitive keys: the lower-cased key contains a sensitive term as a substring |
| Redactor.NameNotSensitive | src/utils/secure_data_utils.py:127-142 | `"name"` contains no sensitive term |
| Redactor.MaskLongExample | src/utils/secure_data_utils.py:132-135 | `"abcdefgh"` masks to `"ab****gh"`, `"ab"` to `"**"` |
| Redactor.RedactorExamples | src/utils/secure_data_utils.py:140-145 | a string under `api_key` is masked; a string under `name` is kept; a dict under `password` is recursed into, not masked |
| Primitives.PasswordKeyIsFernetKey | src/utils/secure_data_utils.py:30-36 | every password-derived key is a valid Fernet key, the empty password included |
| SecureData.DeriveKey | src/utils/secure_data_utils.py:26-37 | a supplied salt is returned unchanged; otherwise the salt is the 16-byte random draw; the key is PBKDF2 of the password and that salt, base64url-encoded; `generate_key` of the configuration vault (src/utils/config_utils.py:22-33) is the same derivation |
| SecureData.DeriveKeyDeterministic | src/utils/secure_data_utils.py:26-37 | supplying back the salt drawn when saving re-derives the same key |
| SecureData.EncryptData | src/utils/secure_data_utils.py:39-46 | fails with `SecureDataError` exactly when Fernet refuses the key or the payload holds an integer too long to write, the key being checked first; otherwise yields the Fernet token of `json.dumps(data)` |
| SecureData.DecryptData | src/utils/secure_data_utils.py:48-55 | every failure is a `SecureDataError`; success means the key is valid, the token authenticates and its plaintext parses to the result |
| SecureData.EncryptDecrypt | src/utils/secure_data_utils.py:39-55 | decrypting with the encrypting key returns the payload |
| SecureData.SecureSaveRun | src/utils/secure_data_utils.py:57-77 | only `{path}.salt` and then `{path}` are written, the salt being the fresh 16-byte draw and the token the payload encrypted under the key derived from it; a key Fernet refuses fails before any write; a denied `.salt` write fails with nothing written, a denied `{path}` write fails after the salt; with neither denied the save succeeds, and success means both writes took place; failures are `SecureDataError` |
| SecureData.SecureLoadRun | src/utils/secure_data_utils.py:79-101 | only reads; a missing salt file fails before anything is opened; an unreadable salt file fails after opening only it; otherwise the salt and then the data file are read, a missing or unreadable data file fails, and with both readable the result is `decrypt_data` of the token under the key derived from the password and the stored salt; failures are `SecureDataError` |
| SecureData.SecureRoundTrip | src/utils/secure_data_utils.py:57-101 | loading with the same password what a save wrote returns the saved payload, whatever was on disk before; if the salt or the data file cannot be opened for reading, the load fails with that path instead |
| SecureData.SecureSave | src/utils/secure_data_utils.py:57-77 | on a disk: the result, the new files and the trace are those of `SecureSaveRun` |
| SecureData.SecureLoad | src/utils/secure_data_utils.py:79-101 | on a disk: the result and the trace are those of `SecureLoadRun`; the files are unchanged |
| SecureData.VerifyDataIntegrity | src/utils/secure_data_utils.py:103-123 | an unset or empty `DATA_INTEGRITY_KEY` raises `SecureDataError`; with the key set, a payload holding an integer too long to write raises it too, and so does a non-ASCII signature (`compare_digest`'s `TypeError`, rewrapped); acceptance implies the signature is the HMAC of the key-sorted JSON |
| SecureData.Signature | src/utils/secure_data_utils.py:112-117 | the hex HMAC-SHA256 of the sorted-key JSON under the secret; see `VerifyAcceptsExactly` and `VerifyIgnoresKeyOrder` |
| SecureData.VerifyAcceptsExactly | src/utils/secure_data_utils.py:107-119 | with the key set and an ASCII signature, the check returns true exactly when the signature equals the computed digest, and raises when the payload holds an integer too long to write |
| SecureData.VerifyIgnoresKeyOrder | src/utils/secure_data_utils.py:112-116 | two payloads with the same entries in different insertion orders verify alike |
| JsonValue.Canonical | src/utils/secure_data_utils.py:114 | the value as `sort_keys=True` writes it; see `CanonicalIgnoresOrder` and `CanonicalObject` |
| JsonValue.CanonicalIgnoresOrder | src/utils/secure_data_utils.py:114 | `sort_keys=True` serialises a dict the same way whatever the insertion order of its keys |
| JsonValue.DigitCountBelow | src/utils/secure_data_utils.py:43 | an integer has at most `k` digits exactly when it is below `10^k`, which is what the 4300-digit limit on `int` to text bounds |
| JsonValue.WellFormedSerialisable | src/utils/config_utils.py:74-75 | a value `json.loads` can produce can be written back by `json.dumps` |
| JsonValue.CanonicalSerialisable | src/utils/secure_data_utils.py:114 | `json.dumps(data, sort_keys=True)` raises on an over-long integer exactly when `json.dumps(data)` does |
| JsonValue.SortByKey | src/utils/secure_data_utils.py:114 | sorting the entries keeps them as a multiset and orders distinct keys strictly |
| JsonValue.Lookup | src/utils/config_utils.py:117-123 | `d[k]` exists exactly when `k in d`, and is the value stored under `k` |
| ConfigVault.ResolvePath | src/utils/config_utils.py:48-49 | the caller's path, or `"config/config.json"` when none is given (for both load and save) |
| ConfigVault.VaultPathsDistinct | src/utils/config_utils.py:52-60 | `path`, `{path}.enc` and `{path}.salt` are three distinct paths |
| ConfigVault.EnvPassword | src/utils/config_utils.py:55 | `os.getenv("CONFIG_PASSWORD")` is present exactly when the variable is set |
| ConfigVault.EncryptConfig | src/utils/config_utils.py:35-38 | an invalid key raises, then an integer too long to write raises; neither is wrapped into `ConfigError` here; otherwise the result is the Fernet token of `json.dumps(config)` |
| ConfigVault.DecryptConfig | src/utils/config_utils.py:40-43 | an invalid key or unauthentic token raises; success means the plaintext parses to the result |
| ConfigVault.EncryptDecryptConfig | src/utils/config_utils.py:35-43 | decrypting with the encrypting key returns the configuration |
| ConfigVault.AsConfigError | src/utils/config_utils.py:77-79 | the `except` clause rewraps any error as `ConfigError` with the same reason |
| ConfigVault.LoadConfigRun | src/utils/config_utils.py:45-79 | only reads. If `.enc` exists: an unset or empty `CONFIG_PASSWORD` fails first, then a missing salt fails, both before any read; an unreadable salt fails after opening only it; otherwise the salt and the `.enc` file are read, never the plain file, and an unreadable `.enc` fails. With a password and a readable salt and `.enc`, the load succeeds exactly when decrypting `.enc` under the key derived from the password and the stored salt succeeds, with the same configuration or the same failure reason. Without `.enc`, only the plain file is opened: a missing or unreadable one fails, an unparsable one fails with `InvalidJson`, a parsable one loads as what `json.loads` returns. All failures are `ConfigError` |
| ConfigVault.LoadPrefersVault | src/utils/config_utils.py:52-71 | when `.enc` exists the result does not depend on the plain file at all |
| ConfigVault.EncryptedSaveRun | src/utils/config_utils.py:87-104 | with a password, the salt (the fresh draw) is written first, then the `.enc` file holding the configuration encrypted under the key derived from that salt, then the plain file is removed if it exists. A denied salt write fails with nothing written; after it, an encryption failure or a denied `.enc` write fails with only the salt written; a denied removal fails; otherwise the save succeeds, and success means all of these took place |
| ConfigVault.SaveConfigRun | src/utils/config_utils.py:81-112 | with a non-empty password, exactly the run of `EncryptedSaveRun` on the resolved path, so the plain file is never written; without one, only the plain file is written, indented, and `.salt`/`.enc` are left alone; a configuration holding an integer too long to write fails after the file was opened, leaving the text `json.dump` had written; failures are `ConfigError` |
| ConfigVault.EncryptedSaveFiles | src/utils/config_utils.py:92-104 | the files after the salt and token writes, and after the removal of the plain file |
| ConfigVault.EncryptedRoundTrip | src/utils/config_utils.py:45-104 | a save with a non-empty password, then a load with that password in `CONFIG_PASSWORD`, returns the saved configuration, unless the salt or `.enc` cannot be opened for reading, and the plain file no longer exists |
| ConfigVault.PlainRoundTrip | src/utils/config_utils.py:73-108 | without a password and without `.enc`, a load after a save returns the saved configuration, unless the plain file cannot be opened for reading |
| ConfigVault.PlainSaveShadowed | src/utils/config_utils.py:52-108 | a save without a password leaves any existing `.enc` branch in charge: a later load gives what it gave before |
| ConfigVault.LoadConfig | src/utils/config_utils.py:45-79 | on a disk: the result and the trace are those of `LoadConfigRun` |
| ConfigVault.SaveEncrypted | src/utils/config_utils.py:87-104 | on a disk: the result, the new files and the trace are those of `EncryptedSaveRun` |
| ConfigVault.SaveConfig | src/utils/config_utils.py:81-112 | on a disk: the result, the new files and the trace are those of `SaveConfigRun` |
| ConfigVault.SectionEntry | src/utils/config_utils.py:114-126 | `config[section][service]` succeeds exactly when the section exists, is a dict and holds the service; a missing section fails with its own reason; all failures are `ConfigError` |
| ConfigVault.SectionEntryFinds | src/utils/config_utils.py:120-123 | when both levels exist, the lookup returns the stored value |
| ConfigVault.GetApiKey | src/utils/config_utils.py:114-126 | succeeds exactly when `api_keys` is a dict holding the service; failures are `ConfigError` |
| ConfigVault.GetUserAgent | src/utils/config_utils.py:128-140 | succeeds exactly when `user_agents` is a dict holding the service; failures are `ConfigError` |
| ConfigVault.GetRateLimit | src/utils/config_utils.py:142-154 | succeeds exactly when `rate_limits` is a dict holding the service; failures are `ConfigError` |
| FileSystem.Disk.Exists | src/utils/config_utils.py:53 | `os.path.exists` is membership in the file map |
| FileSystem.Disk.ReadFile | src/utils/secure_data_utils.py:87-88 | reading yields the stored bytes; a missing file raises `FileNotFoundError` and an unreadable one raises as `open` does; the read is recorded either way |
| FileSystem.Disk.WriteFile | src/utils/secure_data_utils.py:68-69 | a write succeeds exactly outside the denied paths, and then replaces the file's content |
| FileSystem.Disk.RemoveFile | src/utils/config_utils.py:103-104 | a removal succeeds exactly outside the denied paths, and then deletes the file |
| TextCleaning.CleanText | src/preprocessing/prepare_training_data.py:48-70 | `clean_text`: the filter, collapse, trim and cut in source order; what it yields is stated by `CleanTextProperties` and `CleanTextSimplified` |
| TextCleaning.CleanTextProperties | src/preprocessing/prepare_training_data.py:48-70 | the empty text cleans to `""`; every result has at most 5003 characters, only word characters, plain spaces and `.,!?;:-()[]{}`, so no `<` or `>` |
| TextCleaning.CleanTextSimplified | src/preprocessing/prepare_training_data.py:48-70 | for a non-empty text, cleaning is collapse, filter, truncate and strip; the other rewrites have no effect |
| TextCleaning.CleaningSimplified | src/preprocessing/prepare_training_data.py:53-70 | the full rewrite chain equals the four rewrites that do something |
| TextCleaning.CleanStepsAreNoOps | src/preprocessing/prepare_training_data.py:57-64 | after the filter, the quote swap, both dash replacements and the tag removal change nothing |
| TextCleaning.CollapseWhitespace | src/preprocessing/prepare_training_data.py:54 | the only whitespace left is the plain space |
| TextCleaning.CollapseWhitespaceSpec | src/preprocessing/prepare_training_data.py:54 | no longer than the input; empty exactly when the input is; the first character kept or turned into a space; no two adjacent spaces; the non-whitespace characters are kept in order |
| TextCleaning.CollapseBlank | src/preprocessing/prepare_training_data.py:54 | an all-whitespace text collapses to one space |
| TextCleaning.CollapseLast | src/preprocessing/prepare_training_data.py:54 | the last character is kept, or becomes a space when it is whitespace |
| TextCleaning.CollapseJoin | src/preprocessing/prepare_training_data.py:54 | collapsing a text cut where no whitespace run crosses the cut is collapsing the two pieces and joining them; with `CollapseBlank` and the single-character case this fixes the result of every text |
| TextCleaning.CollapseRun | src/preprocessing/prepare_training_data.py:54 | a maximal whitespace run between two pieces becomes exactly one space, and the pieces collapse on their own; with no run between them (`CollapseJoin`) no space is added |
| TextCleaning.BlankCleansToEmpty | src/preprocessing/prepare_training_data.py:50-70 | a non-empty all-whitespace text cleans to `""` |
| TextCleaning.FilterChars | src/preprocessing/prepare_training_data.py:57 | each character is kept when the class allows it and replaced by a space otherwise |
| TextCleaning.FilterExcludes | src/preprocessing/prepare_training_data.py:57 | a character outside the class never survives the filter |
| TextCleaning.FilteredIsClean | src/preprocessing/prepare_training_data.py:54-57 | after the collapse, the filter leaves clean characters only |
| TextCleaning.RemoveTagsNoOpen | src/preprocessing/prepare_training_data.py:64 | without a `<`, the tag removal changes nothing |
| TextCleaning.ReplaceAbsent | src/preprocessing/prepare_training_data.py:61 | replacing a pattern one of whose characters the text lacks changes nothing |
| TextCleaning.Truncate | src/preprocessing/prepare_training_data.py:67-68 | a text of more than 5000 characters becomes its first 5000 plus `"..."`; a shorter one is kept |
| TextCleaning.CutKeepsClean | src/preprocessing/prepare_training_data.py:67-70 | truncating and stripping keep a text clean |
| TextCleaning.CleanHasNoBrackets | src/preprocessing/prepare_training_data.py:57-64 | a clean text holds no `<` and no `>` |
| TrainingData.CountPresent | src/preprocessing/prepare_training_data.py:93-96 | the count of distinct keywords present is bounded by the list, zero exactly when none occurs, full exactly when all occur |
| TrainingData.CountPresentOne | src/preprocessing/prepare_training_data.py:95-96 | one keyword counts 1 when it occurs and 0 otherwise |
| TrainingData.CountPresentAppend | src/preprocessing/prepare_training_data.py:95-96 | the count over two keyword lists is the sum of their counts, so with `CountPresentOne` it is the number of keywords that occur |
| TrainingData.CountPresentIndices | src/preprocessing/prepare_training_data.py:95-96 | the count equals the number of keyword positions whose keyword occurs in the text |
| TrainingData.LabelFor | src/preprocessing/prepare_training_data.py:98-119 | `10-Q`: positive iff pos > neg + 2, negative iff neg > pos + 2; `8-K`: positive iff pos > neg, negative iff neg > pos; any other form, `10-K` included, neutral |
| TrainingData.LabelForSymmetric | src/preprocessing/prepare_training_data.py:102-117 | swapping the counts swaps positive and negative |
| TrainingData.ExtractSentiment | src/preprocessing/prepare_training_data.py:72-121 | `extract_sentiment_from_sec_filing`: the cleaned text and the label; pinned by `ExtractSentimentSpec` |
| TrainingData.ExtractSentimentSpec | src/preprocessing/prepare_training_data.py:72-121 | the text is `clean_text(content)`, and the label follows the form-type rule on the keyword counts of its lower-cased form |
| TrainingData.Stem | src/preprocessing/prepare_training_data.py:137 | the stem is a prefix of the name |
| TrainingData.StemOfTxt | src/preprocessing/prepare_training_data.py:137 | the stem of `base + ".txt"` is `base` |
| TrainingData.ParseStem | src/preprocessing/prepare_training_data.py:137-143 | a stem parses exactly when it has at least three `_`-separated parts, into parts 0, 1 and 2 |
| TrainingData.ParseJoined | src/preprocessing/prepare_training_data.py:138-143 | three fields without `_`, joined by `_`, parse back to themselves |
| TrainingData.SecExample | src/preprocessing/prepare_training_data.py:134-166 | the example one SEC filing yields, or none; pinned by `SecExampleSpec` |
| TrainingData.SecExampleSpec | src/preprocessing/prepare_training_data.py:134-166 | a filing yields an example exactly when its stem parses, it can be read and its cleaned text is longer than 100; the example carries that text, the form's label and the name's fields |
| TrainingData.SecExamples | src/preprocessing/prepare_training_data.py:134-166 | at most one example per file, each from an SEC filing with more than 100 characters |
| TrainingData.Find | src/preprocessing/prepare_training_data.py:197 | the search `split` makes for the separator: `None` exactly when the separator occurs nowhere; otherwise the first offset where it occurs, with no occurrence before it |
| TrainingData.SplitOn | src/preprocessing/prepare_training_data.py:197 | `content.split("\n\n")` yields at least one piece, and no piece contains the separator |
| TrainingData.Descriptions | src/preprocessing/prepare_training_data.py:197 | `[d.strip() for d in content.split('\n\n') if d.strip()]`; its pieces are pinned by `SplitOn`, `JoinSplitOn`, `SplitOnLeftmost` and `StrippedNonEmptySpec` |
| TrainingData.JoinSplitOn | src/preprocessing/prepare_training_data.py:197 | joining the pieces with the separator gives back the content |
| TrainingData.SplitOnLeftmost | src/preprocessing/prepare_training_data.py:197 | every cut is at the leftmost occurrence: the first occurrence in what is left from piece `k` on sits right after piece `k`, and the last piece has none |
| TrainingData.StrippedNonEmptySpec | src/preprocessing/prepare_training_data.py:197 | the descriptions are, in order, the stripped chunks whose strip is non-empty: description `k` is the strip of chunk `kept[k]`, where `kept` lists in increasing order every chunk index with a non-blank strip; each description is non-empty and starts and ends with non-whitespace |
| TrainingData.FredExample | src/preprocessing/prepare_training_data.py:199-212 | the example one FRED description yields, or none; pinned by `FredExampleSpec` |
| TrainingData.FredExampleSpec | src/preprocessing/prepare_training_data.py:199-212 | a description is kept exactly when its cleaned text is longer than 50, as a neutral example carrying that text and its length |
| TrainingData.FredExamples | src/preprocessing/prepare_training_data.py:197-215 | at most one example per description, each neutral, from FRED, longer than 50, with its own length as metadata |
| TrainingData.DescriptionItems | src/preprocessing/prepare_training_data.py:241-242 | a file whose data is not a dict yields no items |
| TrainingData.CleanItem | src/preprocessing/prepare_training_data.py:242-243 | a string item is cleaned; a truthy non-string item raises; a falsy one cleans to `""` |
| TrainingData.PolicyScan | src/preprocessing/prepare_training_data.py:242-258 | each example is neutral, from the policy source, longer than 50 and tagged with the file's name; at most one per item |
| TrainingData.PolicyScanStops | src/preprocessing/prepare_training_data.py:242-262 | once an item raises, later items change nothing |
| TrainingData.PolicyFileExamples | src/preprocessing/prepare_training_data.py:235-262 | the examples of one policy file, none when it cannot be loaded, stopping at the first item that raises; stated by `PolicyRaiseKeepsEarlier` and `PolicyExamplesSpec` |
| TrainingData.PolicyExamples | src/preprocessing/prepare_training_data.py:235-262 | the examples of all policy files in listing order; stated by `PolicyExamplesSpec` |
| TrainingData.PolicyRaiseKeepsEarlier | src/preprocessing/prepare_training_data.py:242-262 | a raising item keeps the examples of the items before it and drops all later ones |
| TrainingData.PolicyExamplesSpec | src/preprocessing/prepare_training_data.py:235-262 | every policy example is neutral, from the policy source and longer than 50 |
| TrainingData.KeepFirstByText | src/preprocessing/prepare_training_data.py:291 | the result is a subsequence of the examples with pairwise distinct texts |
| TrainingData.KeepFirst | src/preprocessing/prepare_training_data.py:291 | the kept examples come from the input in order, avoid the texts already seen, and have pairwise distinct texts |
| TrainingData.KeepFirstCovers | src/preprocessing/prepare_training_data.py:291 | every text not yet seen is kept, through its first occurrence |
| TrainingData.FirstWithText | src/preprocessing/prepare_training_data.py:291 | the index of the first example with a given text |
| TrainingData.KeepFirstByTextCovers | src/preprocessing/prepare_training_data.py:291 | the first example of every text is in the result |
| TrainingData.KeepFirstOrder | src/preprocessing/prepare_training_data.py:291 | `drop_duplicates(subset=['text'])` keeps exactly the first occurrences in their original order: result `k` is example `firsts[k]`, where `firsts` lists in increasing order every index whose text does not occur earlier |
| Preparer.CollectEach | src/preprocessing/prepare_training_data.py:134-166 | the loop appends, in order, exactly the examples its items yield |
| Preparer.ScanPolicyFile | src/preprocessing/prepare_training_data.py:241-258 | the inner loop over one file's descriptions yields that file's examples, stopping at the first item that raises |
| Preparer.ScanPolicyFiles | src/preprocessing/prepare_training_data.py:235-262 | the loop over the files yields the files' examples in order |
| Preparer.TrainingDataPreparer.constructor | src/preprocessing/prepare_training_data.py:31-46 | the preparer starts with no examples |
| Preparer.TrainingDataPreparer.ProcessSecFilings | src/preprocessing/prepare_training_data.py:123-176 | a missing directory returns 0 and changes nothing; otherwise the files' examples are appended in order and their number returned |
| Preparer.TrainingDataPreparer.ProcessFredData | src/preprocessing/prepare_training_data.py:178-221 | without the directory or the combined file, 0 and nothing changes; otherwise the descriptions' examples are appended and counted |
| Preparer.TrainingDataPreparer.ProcessPolicyUncertainty | src/preprocessing/prepare_training_data.py:223-265 | a missing directory returns 0; otherwise each file's examples are appended in order and counted |
| Preparer.TrainingDataPreparer.CreateTrainingDataset | src/preprocessing/prepare_training_data.py:289-291 | `drop_duplicates(subset=['text'])` keeps the first example of each text, and the texts of the result are pairwise distinct |
| SecFilings.ZFill | src/data_collection/download_sec_filings.py:74 | `str.zfill`: the result has length max(len, width) and is the input itself when that is already long enough; value and sign are kept by `ZFillKeepsValue` and `ZFillSigned` |
| SecFilings.ZFillKeepsValue | src/data_collection/download_sec_filings.py:74 | `cik.zfill(10)` of a digit string is a digit string of length max(len, 10) with the same value, unchanged when already long enough |
| SecFilings.ZFillSigned | src/data_collection/download_sec_filings.py:74 | padding keeps a leading `-` in front of the zeros |
| SecFilings.SubmissionsUrl | src/data_collection/download_sec_filings.py:74 | the submissions endpoint of a CIK padded to 10 digits; see `SubmissionsUrlExample` |
| SecFilings.SubmissionsUrlExample | src/data_collection/download_sec_filings.py:74 | Apple's CIK `320193` gives `https://data.sec.gov/submissions/CIK0000320193.json` |
| SecFilings.FilingUrl | src/data_collection/download_sec_filings.py:49 | the archive URL of one filing; its parts are recovered by `FilingUrlParts` |
| SecFilings.FilingFileName | src/data_collection/download_sec_filings.py:104 | the saved file name; parsed back by `SecFileNames.FileNameRoundTrip` |
| SecFilings.PathJoin | src/data_collection/download_sec_filings.py:105 | `os.path.join` of two components: an absolute name replaces the directory, otherwise one `/` separates them |
| SecFilings.PathJoinEndsWith | src/data_collection/download_sec_filings.py:105 | the joined path ends in the name, and an absolute name is the whole result |
| SecFilings.PathJoinRelative | src/data_collection/download_sec_filings.py:105 | a relative name under a directory not ending in `/` gives directory, `/`, name |
| SecFilings.SavePath | src/data_collection/download_sec_filings.py:104-105 | `os.path.join(OUTPUT_DIR, filename)` for an entry; see `SavePathUnderOutput` |
| SecFilings.SavePathUnderOutput | src/data_collection/download_sec_filings.py:104-105 | unless the dashless accession number starts with `/`, the file lands directly under the output directory |
| SecFilings.FilingUrlParts | src/data_collection/download_sec_filings.py:49 | the archive URL is the archive prefix followed by the CIK, the accession without `-` and the document, separated by `/` |
| SecFilings.InitialCounts | src/data_collection/download_sec_filings.py:89 | every form type starts at zero |
| SecFilings.Step | src/data_collection/download_sec_filings.py:91-120 | one pass of the loop over the accession numbers; its cases are stated by `StepCases`, `StepCounts` and `StepFiles` |
| SecFilings.Select | src/data_collection/download_sec_filings.py:91-120 | the state after the first `n` entries; its invariants are `SelectInvariants`, `Quota` and `FirstSuccessesSaved` |
| SecFilings.StepCases | src/data_collection/download_sec_filings.py:91-120 | an entry either is saved and counted, or leaves files and counters alone; an abandoned company stays so |
| SecFilings.SelectStops | src/data_collection/download_sec_filings.py:91-127 | an error outside the per-filing `try` ends the company: later entries change nothing |
| SecFilings.SelectFilings | src/data_collection/download_sec_filings.py:89-120 | the loop with `filing_counts` saves exactly the files of the selection, and stops where it does |
| SecFilings.StepCounts | src/data_collection/download_sec_filings.py:94-112 | each counter equals its form's number of saved files, at most 10, after every step |
| SecFilings.StepFiles | src/data_collection/download_sec_filings.py:99-112 | every file saved is an earlier successful entry, with its own form, path and content, in entry order |
| SecFilings.SelectInvariants | src/data_collection/download_sec_filings.py:89-120 | the counters, files and order stay right throughout the loop |
| SecFilings.Quota | src/data_collection/download_sec_filings.py:89-112 | a company saves at most `FILINGS_PER_TYPE` (10) files of each form, only of the three form types, so at most 30 |
| SecFilings.FirstSuccessesSaved | src/data_collection/download_sec_filings.py:91-120 | the files saved for a form are the first ten entries of that form that were fetched and written, in list order; a failed fetch or write frees its slot |
| SecFilings.StepFirst | src/data_collection/download_sec_filings.py:94-120 | one step of the previous property |
| SecFilings.AlignedNeverAborts | src/data_collection/download_sec_filings.py:91-97 | when the form, date and document lists are as long as the accessions, the company is never abandoned |
| SecFilings.NoFormsSavesNothing | src/data_collection/download_sec_filings.py:92 | a missing form list abandons the company at its first entry, with nothing saved |
| SecFilings.CompanyFiles | src/data_collection/download_sec_filings.py:70-127 | one company yields at most 30 files, none when the request fails or there are no recent filings |
| SecFilings.AllFilesBound | src/data_collection/download_sec_filings.py:67-127 | all companies together yield at most 30 files per company |
| SecFilings.DownloadAll | src/data_collection/download_sec_filings.py:67-127 | the company loop saves the companies' files in order, at most 30 per company |
| SecFilings.DownloadSecFilings | src/data_collection/download_sec_filings.py:56-129 | over the ten configured companies: the files of the selection, at most 300 |
| SecFileNames.FileNameRoundTrip | src/data_collection/download_sec_filings.py:104 | for an accession, a form and a date without `_`, and a form without `/`, parsing the saved name's stem gives back the accession without `-`, the form and the date |
| SecFileNames.FormTypesPlain | src/data_collection/download_sec_filings.py:38 | none of the three form types holds `_` or `/` |
| SecFileNames.SavedNameParses | src/preprocessing/prepare_training_data.py:137-143 | the parser recovers the accession without `-`, the form and the date of every saved filing whose accession and date hold no `_` |
| ApiUtils.GetHeaders | src/utils/api_utils.py:8-13 | exactly two headers |
| ApiUtils.HeadersHold | src/utils/api_utils.py:8-13 | `User-Agent` is the argument, `Accept-Encoding` is `"gzip, deflate"`, and the two names differ |
| ApiUtils.Header | src/utils/api_utils.py:10-13 | a header is found exactly when one with that name is present |
| ApiUtils.MakeApiRequest | src/utils/api_utils.py:15-54 | the loop, with its early returns, `continue`s and `finally` pause, yields the result and the trace of the attempt policy |
| ApiUtils.Attempts | src/utils/api_utils.py:30-54 | the loop from one attempt on, as result and trace; stated by `RetryStep` through `ResultIsFirstOk` |
| ApiUtils.RetryStep | src/utils/api_utils.py:36-48 | an attempt that is retried emits a request and both pauses, then passes to the next attempt |
| ApiUtils.AttemptsBounded | src/utils/api_utils.py:30-54 | at most `max_retries` requests, and exactly one rate-limit pause per request |
| ApiUtils.NoRetriesNoRequest | src/utils/api_utils.py:30-54 | with `max_retries <= 0`, no request and `None` |
| ApiUtils.FirstOkReturns | src/utils/api_utils.py:34-35 | a first reply of 200 with JSON returns that JSON at once, after one pause |
| ApiUtils.OtherStatusGivesUp | src/utils/api_utils.py:40-42 | a status other than 200 and 429 returns `None` at once |
| ApiUtils.LastExceptionGivesUp | src/utils/api_utils.py:44-49 | an exception on the last attempt returns `None` |
| ApiUtils.AlwaysLimited | src/utils/api_utils.py:36-39 | a 429 on every attempt gives `None` after exactly `max_retries` requests |
| ApiUtils.ResultFromFirstOk | src/utils/api_utils.py:30-54 | a returned JSON comes from a 200 reply all of whose predecessors were retried |
| ApiUtils.FirstOkIsResult | src/utils/api_utils.py:30-54 | a 200 reply within the attempts, preceded only by retried ones, is the result |
| ApiUtils.ResultIsFirstOk | src/utils/api_utils.py:30-54 | the result is some JSON exactly when such a first 200 reply exists |
| Common.Split | src/preprocessing/prepare_training_data.py:138 | `str.split(sep)` yields at least one part, and no part holds the separator |
| Common.SplitJoin | src/preprocessing/prepare_training_data.py:138 | splitting parts joined by a separator they lack gives back the parts |
| Common.JoinSplit | src/preprocessing/prepare_training_data.py:138 | joining the parts of a split gives back the text |
| Common.Contains | src/preprocessing/prepare_training_data.py:95 | `word in text` holds exactly when the word occurs at some offset |
| Common.Lower | src/preprocessing/prepare_training_data.py:94 | lower-casing keeps the length and maps each character |
| Common.Strip | src/preprocessing/prepare_training_data.py:70 | no longer than the text, made of its characters, with no whitespace at either end |
| Common.StripIsSlice | src/preprocessing/prepare_training_data.py:70 | the result is the slice `s[i..j]` with only whitespace before `i` and after `j`, so, with `Strip`'s own contract, exactly the text without its leading and trailing whitespace |
| Common.ReplaceChar | src/data_collection/download_sec_filings.py:104 | `form.replace('/', '_')` turns each `/` into `_` and keeps every other character |
| Common.RemoveChar | src/data_collection/download_sec_filings.py:95 | `replace("-", "")` leaves no `-`, never lengthens, changes nothing when there is none |
| Common.RemoveCharCounts | src/data_collection/download_sec_filings.py:95 | every character other than `-` is kept as often as it occurs |
| Common.RemoveCharAppend | src/data_collection/download_sec_filings.py:95 | removal works piece by piece: removing from `s + t` is removing from `s` followed by removing from `t`, so the kept characters stay in their order |

## Left out

- `secure_log` and `generate_data_key` are not modelled. The first appends to a log file with a wall-clock timestamp. The second only calls `Fernet.generate_key()`, which is randomness.
- PBKDF2, Fernet (AES-128-CBC with HMAC-SHA256), HMAC-SHA256, base64url, UTF-8 and the `json` module are uninterpreted. Only the properties listed under `Primitives.Sound` are assumed. So are the token format, the timestamp check and the exact bytes of a serialisation.
- JSON numbers are integers; floats are not modelled. The 4300-digit limit is CPython's default. Changing it with `sys.set_int_max_str_digits` or `PYTHONINTMAXSTRDIGITS` is not modelled, and neither is an interpreter without the limit.
- ConfigVault.GetRateLimit does not model the final `float(...)` conversion. It returns the stored value.
- The regular-expression classes `\w` and `\s` and `str.lower()` are modelled on ASCII letters and digits and CPython's whitespace set only. Unicode word characters and case folding are not modelled.
- Error messages are not modelled. Errors are tagged by kind (`SecureDataError`, `ConfigError`) and an approximate reason. In the configuration vault, the reason of a rewrapped error is the inner reason.
- A write is denied or writes all it is given. The only partial write is the plain configuration file when `json.dump` raises half-way. The text it leaves is an uninterpreted value. UTF-8 encoding of text files is not modelled.
- Logging, printing, `time.sleep` durations and `ensure_directory`/`os.makedirs` are left out. The retry trace keeps the sleeps as tags, without their durations.
- The network is left out. HTTP replies are oracles passed as parameters, and headers and query parameters are passed through unchanged.
- Directory globbing is modelled as a given list of files in listing order. The `.json` and `.txt` filters of the glob are not modelled.
- The navigation of the submissions JSON (`submissions['filings']['recent']`, `.get(..., [])`) is given as an oracle result, `RequestFailed`, `NoRecentFilings` or `RecentFilings`. The items of its lists are assumed to be strings.
- `FORM_TYPES` is a set. Its list order in the source only matters for the initial counters, and that order does not affect behaviour.
- The pandas DataFrame is left out, and so are the `created_at` and `dataset_version` columns, the required-column check and the label statistics. `create_training_dataset` is modelled by its de-duplication.
- The constructor's `load_config()` and `ensure_directory` are left out, because neither influences the processing passes.
- In the processing methods, the examples are gathered locally and appended in one step. The source appends them one at a time. The resulting list is the same, because nothing reads it in between.
- `process_fred_data`: reading the combined file is given as its content, or `None` when the directory or the file is missing or reading it raises.
- Duplicate keys in a JSON object cannot arise from `json.loads`. Lemmas that rely on this require `DistinctKeys` or `WellFormed`.
- Redactor.Sanitized: a non-dict argument at the top level is returned unchanged, whereas `sanitize_dict` raises `AttributeError` at `d.items()` (src/utils/secure_data_utils.py:139). The recursion only ever passes a dict, so the two differ only when `sanitize_sensitive_data` is called directly on a non-dict, which its `Dict[str, Any]` annotation rules out; the model has no exception path for that call.
