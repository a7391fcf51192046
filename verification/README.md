# mcsound asset resolution, modelled in Dafny

mcsound plays Minecraft sounds from the game's local asset store. This
project models the part that finds those sounds, `src/assets.rs`:

- locating the installation directory (`MINECRAFT_HOME` or the platform
  default);
- choosing the latest asset index under `assets/indexes`;
- building the sound catalog from that index (the `minecraft/sounds/*.ogg`
  keys and their content hashes);
- listing sound names, with an optional substring filter, in sorted order;
- resolving a sound name to the object file
  `<dir>/assets/objects/<hash[..2]>/<hash>`.

The filesystem, the environment and the JSON parser are parameters:

- `present: set<Path>` holds the paths that exist.
- `listing` is what `fs::read_dir` yields for the indexes directory.
- `files` is what reading and parsing each index file gives.
- `minecraftHome`, `home` and `dataDir` stand for `env::var` and the `dirs`
  crate.
- `os` stands for the `cfg!(target_os)` branches.

The two in-place sorts, `sounds.sort()` and `indexes.sort_by(..)`, are one
verified insertion sort over an array. It always yields a permutation of its
input. The result is sorted whenever the relation is a strict weak order on
the elements present. Rust gives no ordering guarantee otherwise.

Modules, one per file:

- `Wrappers`: `Option` and `Result`.
- `Text`: prefix and suffix stripping, substring search, byte-order
  comparison.
- `Paths`: Unix `Path::join`.
- `Sorting`: the sort and its order predicates.
- `IndexSelection`: `u32` parsing, `Path::extension`, the comparator and
  `find_latest_index`.
- `Locate`: `find_minecraft_dir`.
- `Catalog`: `load`, `list_sounds`, `resolve_sound`.
- `Scenario`: a worked example of one small installation.

Strings are sequences of Unicode scalar values. On UTF-8 text, comparing code
points orders strings exactly as comparing their bytes does, so `Compare` is
Rust's `str`/`OsStr` ordering.

## Model

| member | source | states |
|---|---|---|
| Catalog.SoundKey | src/assets.rs:74 | `format!("minecraft/sounds/{}.ogg", name)`: the key passes the `load` filter of line 40 |
| Catalog.IsSoundKey | src/assets.rs:40 | The `load` filter: the key starts with `minecraft/sounds/` and ends with `.ogg` (its meaning, the keys of sound names, is `Catalog.SoundKeyIff`) |
| Catalog.SoundName | src/assets.rs:56 | Stripping `minecraft/sounds/` then `.ogg`: a name found is what lies between the two |
| Catalog.SoundObjects | src/assets.rs:37-42 | The catalog holds exactly the index keys that start with `minecraft/sounds/` and end with `.ogg`, each mapped to that entry's hash; a name's key is in the catalog iff it is in the index |
| Catalog.SoundKeyIff | src/assets.rs:40 | A key passes the `load` filter iff stripping prefix then suffix (line 56) succeeds, and then it is the key rebuilt from the stripped name |
| Catalog.SoundKeyHasName | src/assets.rs:40 | Every key kept by `load` can be stripped by `list_sounds`, so no catalog key is lost from the listing |
| Catalog.NameRoundTrip | src/assets.rs:56 | Stripping the key `format!` builds at line 74 gives the name back, and that key passes the `load` filter |
| Catalog.KeyRoundTrip | src/assets.rs:74 | Rebuilding the key from a stripped name gives the original key |
| Catalog.ListSounds | src/assets.rs:51-70 | Returns a name iff its key is in the catalog and it matches the pattern; the result is strictly ascending in byte order, so it has no duplicates |
| Catalog.Matches | src/assets.rs:57-65 | No pattern matches every name; a pattern matches iff it occurs in the name at some offset |
| Catalog.GatherStep | src/assets.rs:52-67 | One step of the `filter_map`: after visiting one more key, the names gathered are, once each, the matching names of the visited keys |
| Catalog.PatternListingIsFiltered | src/assets.rs:57-65 | `list_sounds(Some(p))` is exactly the names of `list_sounds(None)` that contain `p`, in the same order; `Some("")` equals `None` |
| Catalog.FilterKeepsOrder | src/assets.rs:57-68 | Filtering a strictly sorted listing by substring keeps it strictly sorted |
| Catalog.SortedUnique | src/assets.rs:68 | Two strictly sorted lists with the same members are equal, so the listing is determined by its members |
| Catalog.DistinctSortedIsStrict | src/assets.rs:67-68 | Sorting a list of distinct names gives a strictly ascending list |
| Catalog.StrLessIsStrictWeak | src/assets.rs:68 | The byte order `sort()` uses is a strict weak order on any names |
| Catalog.FanOutDefined | src/assets.rs:84 | `&hash[..2]` does not panic exactly when some prefix of the hash is two bytes long in UTF-8 |
| Catalog.FanOut | src/assets.rs:84 | `&hash[..2]` is the prefix of the hash whose UTF-8 length is two bytes, which for an ASCII hash is its first two characters |
| Catalog.ObjectPath | src/assets.rs:80-85 | The four joins: the path ends with the hash, or is the hash itself when the hash starts with `/` |
| Catalog.ObjectPathLayout | src/assets.rs:80-85 | For a hash without `/` the object path is `<dir>/assets` + `/objects/` + `hash[..2]` + `/` + hash |
| Catalog.AsciiObjectPath | src/assets.rs:80-85 | For a hash whose first two characters are ASCII the fan-out directory is named by those two characters and the file by the whole hash |
| Catalog.ResolveSound | src/assets.rs:73-92 | "Sound not found" for this name iff the rebuilt key is absent; when the key is present, success iff the object path exists, and then the path returned is that object path; every other failure is "missing from disk" carrying that path |
| Catalog.CatalogKeysResolve | src/assets.rs:74-91 | Every catalog key has a listable name that `resolve_sound` finds; resolution then succeeds iff the object file exists and otherwise reports that file missing |
| Catalog.Loaded | src/assets.rs:30-47 | Reading the chosen index: success iff it parses, and then the catalog is its sound entries under the located directory; otherwise the read or parse error carrying the index path |
| Catalog.ReadIndex | src/assets.rs:30-34 | The file held for the path, read and parsed; a path with no file cannot be read |
| Catalog.Load | src/assets.rs:26-48 | "Locate failed" iff `find_minecraft_dir` fails, with its error; "no index chosen" iff the directory was located and `find_latest_index` fails, carrying that function's own error (no indexes directory, `read_dir` failed, or no index files); otherwise the result is `Loaded` on an index `find_latest_index` may pick, so a chosen index that parses always gives the catalog; every key is a sound key |
| Locate.DefaultDir | src/assets.rs:105-112 | The default directory exists iff the home directory (data directory on Windows) is known, and is exactly that directory, a `/` unless it already ends in one, and `Library/Application Support/minecraft` on macOS or `.minecraft` elsewhere |
| Locate.FindMinecraftDir | src/assets.rs:95-124 | Only existing paths are returned (`Path::exists`, true of a file as well as a directory); a set and existing `MINECRAFT_HOME` wins; otherwise the OS default; "home directory unknown" iff there is no default; "not found" carries the missing default |
| Locate.MissingOverrideIgnored | src/assets.rs:97-102 | A `MINECRAFT_HOME` that does not exist behaves as if the variable were unset |
| Locate.LocateFailsIffNothingExists | src/assets.rs:95-124 | Locating fails iff neither the override nor the default names an existing path |
| Locate.LinuxDefault | src/assets.rs:111 | On Linux, home `/home/steve` gives `/home/steve/.minecraft` |
| Paths.Join | src/assets.rs:80-85 | An absolute component replaces the base; otherwise the result starts with the base and ends with the component, joined by one `/` when the base is non-empty and does not end in one, and concatenated as they are otherwise |
| Paths.JoinTwice | src/assets.rs:127 | Joining two relative components in turn puts exactly one `/` between them, and one after the base unless it is empty or ends in `/` |
| Text.StripPrefix | src/assets.rs:56 | Succeeds iff the string starts with the prefix, and prefix + result is the string |
| Text.StripSuffix | src/assets.rs:56 | Succeeds iff the string ends with the suffix, and result + suffix is the string |
| Text.ContainsIffOccurs | src/assets.rs:58 | `contains` holds iff the pattern occurs at some position |
| Text.Contains | src/assets.rs:58 | `str::contains`: a pattern that occurs is no longer than the name, and the empty pattern occurs in every name |
| Text.Compare | src/assets.rs:68 | `Ord for str`, lexicographic: a proper prefix sorts first, and a string equals itself |
| Text.CompareLessIff | src/assets.rs:159 | `Less` iff `a` is a proper prefix of `b`, or the first character where they differ is smaller in `a`: the byte order of `str::cmp` |
| Text.CompareEqualIff | src/assets.rs:68 | The byte-order comparison says Equal iff the strings are equal |
| Text.CompareFlip | src/assets.rs:159 | `a < b` iff `b > a` |
| Text.CompareTransitive | src/assets.rs:68 | The byte order is transitive |
| Text.StrLessStrictTotal | src/assets.rs:68 | The byte order is irreflexive, asymmetric, total on distinct strings and transitive |
| Sorting.SortBy | src/assets.rs:144-161 | Sorting in place yields a permutation; when the relation is a strict weak order on the elements the result is sorted |
| Sorting.FirstOfSorted | src/assets.rs:163 | Element 0 of a sorted permutation is an element no other one is less than |
| Sorting.LeastOfPair | src/assets.rs:163 | Of two elements one of which is less than the other, that one comes first |
| Sorting.LeastOfChain | src/assets.rs:163 | Of three elements in a chain, the least comes first |
| Sorting.NotStrictWeak | src/assets.rs:144-161 | Three elements whose "not less" fails transitivity rule out a strict weak order |
| IndexSelection.ParseU32 | src/assets.rs:148-155 | A parsed `u32` is at most 4294967295 |
| IndexSelection.ParseDecimal | src/assets.rs:151 | The decimal text of `n`, with or without `+`, parses back to `n` iff `n` fits in 32 bits |
| IndexSelection.ParseLeadingZero | src/assets.rs:152 | `parse::<u32>` accepts leading zeros (`08` and `+08` are 8) and rejects the empty string, a lone `+` and a `-` sign |
| IndexSelection.DecimalValue | src/assets.rs:151 | The digits of `Decimal(n)` denote `n` |
| IndexSelection.Extension | src/assets.rs:136 | `Path::extension`: present iff the name is not `..` and has a `.` after its first character; it is then the dot-free text after the last `.` |
| IndexSelection.LastDot | src/assets.rs:136 | The position found holds the last `.` of the name, or there is none |
| IndexSelection.JsonExtensionIff | src/assets.rs:136 | An entry has extension `json` iff its name is longer than `.json` and ends with it |
| IndexSelection.JsonIndexes | src/assets.rs:134-137 | The kept entries are exactly the listed ones with extension `json` |
| IndexSelection.IndexNumber | src/assets.rs:148-155 | A number is found only for a name ending in `.json`; it is the rest of the name parsed as a `u32`, so at most 4294967295 |
| IndexSelection.IndexCmp | src/assets.rs:144-160 | The comparator: two numeric names compare by descending number (equal numbers are Equal); otherwise by descending file name (Equal only for the same name) |
| IndexSelection.NumCmp | src/assets.rs:158 | `u32::cmp`: Less iff the first number is smaller, Equal iff they are equal |
| IndexSelection.IndexLess | src/assets.rs:144-160 | "Sorts before" as `sort_by` reads it: never holds of a name and itself, and when `a` sorts before `b` the comparator ranks `b` after `a` |
| IndexSelection.IndexNumberOfStem | src/assets.rs:148-155 | The number of `<stem>.json` is the stem parsed as a `u32` |
| IndexSelection.IndexIrreflexive | src/assets.rs:144-161 | No entry sorts before itself |
| IndexSelection.IndexLessNumeric | src/assets.rs:158 | Between numeric names the larger number sorts first |
| IndexSelection.IndexLessMixed | src/assets.rs:159 | When either name is not numeric, the greater file name sorts first |
| IndexSelection.NumericIsStrictWeak | src/assets.rs:157-160 | On numeric names alone the comparator is a strict weak order |
| IndexSelection.NumericLeastIsLargest | src/assets.rs:157-163 | On numeric names the entry sorted first has the largest number |
| IndexSelection.TwentySixBeforeEight | src/assets.rs:147 | `26.json` sorts before `8.json`, although `26.json` is the smaller text |
| IndexSelection.TwentySixIsLatest | src/assets.rs:126-164 | From `8.json` and `26.json`, `26.json` can be picked and no other entry can |
| IndexSelection.NonNumericOutranksNumeric | src/assets.rs:159 | `bad.json` sorts before `8.json` |
| IndexSelection.WrittenPicksNonNumeric | src/assets.rs:157-163 | From `8.json` and `bad.json`, `bad.json` can be picked and no other entry can |
| IndexSelection.BadTwentySixEightChain | src/assets.rs:157-160 | The comparator orders `bad.json`, `26.json`, `8.json` consistently in that order |
| IndexSelection.WrittenPicksBad | src/assets.rs:157-163 | From `8.json`, `26.json` and `bad.json`, `bad.json` can be picked and no other entry can |
| IndexSelection.ComparatorCycle | src/assets.rs:157-160 | `10.json` before `9.json` before `5x.json` before `10.json`: a cycle |
| IndexSelection.MixedNamesNotStrictWeak | src/assets.rs:157-160 | So the comparator is not a strict weak order on `10.json`, `9.json`, `5x.json` |
| IndexSelection.IntendedIsStrictWeak | src/assets.rs:143-160 | The corrected comparator (numeric names first) is a strict weak order on any names |
| IndexSelection.IntendedPicksLargest | src/assets.rs:133 | Under the corrected comparator the entry picked has the largest number whenever any entry is numeric |
| IndexSelection.IntendedPicksTwentySix | src/assets.rs:133 | Under the corrected comparator `26.json` is picked from `8.json`, `26.json`, `bad.json` |
| IndexSelection.LeastIsSelected | src/assets.rs:161-163 | An entry that no other entry sorts before can be picked, and it has the largest number when all entries are numeric |
| IndexSelection.SortedFirstIsSelected | src/assets.rs:161-163 | Element 0 of the sorted entries is one of them, least when the comparator is a strict weak order on them, and numerically largest when all are numeric |
| IndexSelection.Latest | src/assets.rs:144-163 | Sorting the entries and taking element 0 picks an entry with those properties |
| IndexSelection.LatestIntended | src/assets.rs:133 | The corrected sort and pick: the entry picked sorts first under the corrected comparator and carries the largest number whenever any entry is numeric |
| IndexSelection.IndexesDir | src/assets.rs:127 | The indexes directory is `<dir>/assets/indexes`, with no doubled `/` after a directory that ends in one |
| IndexSelection.FindLatestIndex | src/assets.rs:126-164 | Fails with "no indexes directory", "read_dir failed" or "no index files" exactly in those cases; otherwise returns `<dir>/assets/indexes/<name>` for an entry picked as above |
| Scenario.ZombieCatalog | src/assets.rs:37-42 | An index with `minecraft/sounds/mob/zombie/death1.ogg` and a texture gives a catalog holding only the sound |
| Scenario.ZombieListing | src/assets.rs:51-70 | Listing that catalog gives exactly `["mob/zombie/death1"]` |
| Scenario.ZombieObjectPath | src/assets.rs:80-85 | Hash `aa11` lives at `<dir>/assets/objects/aa/aa11` |
| Scenario.ZombieResolves | src/assets.rs:73-92 | `mob/zombie/death1` resolves to its object path when that exists, otherwise "missing from disk" |
| Scenario.OtherNotFound | src/assets.rs:75-78 | `mob/zombie/death2` is "Sound not found" |
| Scenario.OnlyFiveJson | src/assets.rs:133-163 | An indexes directory listing only `5.json` keeps that entry, and it is the only one that can be picked |
| Scenario.FiveJsonLoads | src/assets.rs:26-48 | With `MINECRAFT_HOME` naming an existing root whose indexes directory holds only `5.json`, parsing to the zombie index: the installation is the root, an index can be chosen, and every index that may be picked loads as the catalog holding the one sound entry, so by `Catalog.Load`'s ensures that catalog is the result |

## Left out

- `src/audio.rs` (rodio playback) and `src/main.rs` (clap parsing and output) are not part of this model: they are I/O with no logic of their own.
- The filesystem, `env::var`, `dirs::home_dir` and `dirs::data_dir` are parameters. `Path::exists` is membership in `present`.
- serde_json parsing is left out. An index file is given already parsed (`Catalog.IndexFile`), or as unreadable or malformed.
- Errors on individual `read_dir` entries are left out (`.filter_map(|e| e.ok())`). `listing` holds only the entries read without error.
- Non-UTF-8 file names are left out, where `to_str()` gives `None` and the name counts as non-numeric. All names are Unicode text here.
- Windows path syntax is left out (`\` separators, drive prefixes). `Paths.Join` is the Unix `Path::join`.
- `Catalog.ResolveSound`: it requires the found hash to have a character boundary at byte 2. This stands in for the panic of `&hash[..2]` on a shorter hash or a split character.
- `Sorting.SortBy`: it states no order when the relation is not a strict weak order, only a permutation. It does not model whether Rust's `sort_by` panics on such a comparator.
- `IndexSelection.FindLatestIndex`: it does not say which entry is picked when the comparator is not a strict weak order on the entries. It also does not say which of several entries with the same number is picked (for example `8.json` and `08.json`), which depends on `sort_by` being stable and on directory order.
- `Catalog.Load`: it names the chosen index only through what `FindLatestIndex` promises (some entry it may pick), so when several entries could be picked it does not say which. It does not model the `anyhow` context strings of the errors.
- `Catalog.Loaded`: it attaches the index path to `IndexMalformed`. The source's parse error carries only the context "Failed to parse asset index JSON" and names no file. The path on `IndexUnreadable` matches the read error's context, which does name the file.
- `IndexSelection.FindLatestIndex`: it attaches the indexes directory to `ReadDirFailed`. The source passes on the bare `io::Error` of `read_dir`, which names no path.
- `Catalog.ListSounds`: the result holds the names as owned strings, not as `&str` borrowed from the catalog.
- The `size` of an object is read and dropped. Hashes are never checked against file contents, and the model does not check them either.

## Findings

| source | as written | input that shows it | evidently intended | confidence | as-written member | corrected member |
|---|---|---|---|---|---|---|
| src/assets.rs:157-160 | When either name is not numeric, the comparator orders the two names by descending text, so a non-numeric name such as `bad.json` or `legacy.json` outranks numeric ones whose first character is smaller. It also makes the comparator cyclic on mixed names (`10.json`, `9.json`, `5x.json`). | entries `8.json`, `26.json`, `bad.json`: `bad.json` is loaded, not `26.json` | numeric entries sort before all others, by descending number; the rest follow by descending text, so the largest-numbered index is loaded whenever one exists | medium; not executed | IndexSelection.WrittenPicksBad | IndexSelection.LatestIntended |

The model of `find_latest_index` and `load` follows the code as written.
`IndexSelection.LatestIntended` sorts with the corrected comparator
`IndexSelection.IntendedLess` and takes the first entry. It is proved
a strict weak order on any names (`IndexSelection.IntendedIsStrictWeak`). It
picks the largest number whenever any entry is numeric
(`IndexSelection.IntendedPicksLargest`), and it picks `26.json` in the
example above (`IndexSelection.IntendedPicksTwentySix`).
