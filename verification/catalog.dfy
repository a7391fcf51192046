/**
 * `MinecraftAssets`: the sound catalog built from the latest asset index,
 * its listing of sound names and the resolution of a sound name to the
 * content-addressed object file that holds it. The catalog never changes
 * after it is built, so it is a value.
 */
module Catalog {
  import opened Wrappers
  import opened Text
  import opened Paths
  import opened Sorting
  import opened Locate
  import opened IndexSelection

  const SoundPrefix := "minecraft/sounds/"
  const SoundSuffix := ".ogg"

  /** One entry of the index's `objects` map; `size` is read but never used. */
  datatype AssetObject = AssetObject(hash: string, size: nat)

  /** `MinecraftAssets`: the installation directory and the sound keys mapped to their hashes. */
  datatype Assets = Assets(minecraftDir: Path, objects: map<string, string>)

  /** The keys `load` keeps. */
  predicate IsSoundKey(k: string) {
    StartsWith(k, SoundPrefix) && EndsWith(k, SoundSuffix)
  }

  /** `format!("minecraft/sounds/{}.ogg", name)`. */
  function SoundKey(name: string): (k: string)
    ensures IsSoundKey(k)
  {
    SoundPrefix + name + SoundSuffix
  }

  /** `k.strip_prefix("minecraft/sounds/")?.strip_suffix(".ogg")`. */
  function SoundName(k: string): (r: Option<string>)
    ensures r.Some? ==> SoundPrefix + r.value + SoundSuffix == k
  {
    match StripPrefix(k, SoundPrefix)
    case None => None
    case Some(rest) => StripSuffix(rest, SoundSuffix)
  }

  /** Stripping a rebuilt key gives the name back. */
  lemma NameRoundTrip(name: string)
    ensures SoundName(SoundKey(name)) == Some(name)
    ensures IsSoundKey(SoundKey(name))
  {
    var k := SoundKey(name);
    assert k[..|SoundPrefix|] == SoundPrefix;
    assert k[|SoundPrefix|..] == name + SoundSuffix;
    assert (name + SoundSuffix)[..|name|] == name;
    assert k[|k| - |SoundSuffix|..] == SoundSuffix;
  }

  /** Rebuilding a stripped key gives the key back. */
  lemma KeyRoundTrip(k: string)
    requires SoundName(k).Some?
    ensures SoundKey(SoundName(k).value) == k
  {
  }

  /**
   * Every key `load` keeps can be stripped: the prefix ends in `/` and the
   * suffix holds none, so a key with both is longer than the two together.
   */
  lemma {:induction false} SoundKeyHasName(k: string)
    requires IsSoundKey(k)
    ensures SoundName(k).Some?
  {
    if |k| < |SoundPrefix| + |SoundSuffix| {
      assert k[16] == SoundPrefix[16] == '/';
      assert k[16] == SoundSuffix[16 - (|k| - |SoundSuffix|)];
    }
    var rest := k[|SoundPrefix|..];
    assert rest[|rest| - |SoundSuffix|..] == k[|k| - |SoundSuffix|..];
  }

  /** So a key is a sound key exactly when it is the key of some name. */
  lemma SoundKeyIff(k: string)
    ensures IsSoundKey(k) <==> SoundName(k).Some?
    ensures SoundName(k).Some? ==> k == SoundKey(SoundName(k).value)
  {
    if IsSoundKey(k) {
      SoundKeyHasName(k);
    }
    if SoundName(k).Some? {
      KeyRoundTrip(k);
      NameRoundTrip(SoundName(k).value);
    }
  }

  /**
   * The filter-and-map step of `load`: the sound keys of the parsed index,
   * each mapped to its hash; every other key is dropped and `size` is
   * discarded.
   */
  function SoundObjects(index: map<string, AssetObject>): (r: map<string, string>)
    ensures forall k :: k in r <==> k in index && IsSoundKey(k)
    ensures forall k :: k in r ==> r[k] == index[k].hash
    ensures forall name :: SoundKey(name) in r <==> SoundKey(name) in index
  {
    var r := map k | k in index && IsSoundKey(k) :: index[k].hash;
    assert forall name :: IsSoundKey(SoundKey(name)) by {
      forall name ensures IsSoundKey(SoundKey(name)) { NameRoundTrip(name); }
    }
    r
  }

  /** The optional filter of `list_sounds`: a case-sensitive substring. */
  predicate Matches(name: string, pattern: Option<string>)
    ensures Matches(name, pattern) <==> pattern.None? || exists i: nat :: OccursAt(name, pattern.value, i)
  {
    match pattern
    case None => true
    case Some(p) => ContainsIffOccurs(name, p); Contains(name, p)
  }

  /** Ascending byte order with no repeats. */
  ghost predicate StrictlySorted(s: seq<string>) {
    forall i, j :: 0 <= i < j < |s| ==> StrLess(s[i], s[j])
  }

  ghost predicate Distinct(s: seq<string>) {
    forall i, j :: 0 <= i < j < |s| ==> s[i] != s[j]
  }

  /**
   * `list_sounds`: the name of every catalog key that matches the pattern,
   * each once, in ascending byte order.
   */
  method ListSounds(assets: Assets, pattern: Option<string>) returns (sounds: seq<string>)
    ensures StrictlySorted(sounds)
    ensures forall name :: name in sounds <==> SoundKey(name) in assets.objects && Matches(name, pattern)
  {
    var remaining := assets.objects.Keys;
    sounds := [];
    while remaining != {}
      invariant remaining <= assets.objects.Keys
      invariant Gathered(assets.objects, remaining, pattern, sounds)
      decreases remaining
    {
      var k :| k in remaining;
      var name := SoundName(k);
      GatherStep(assets.objects, remaining, pattern, sounds, k);
      remaining := remaining - {k};
      if name.Some? && Matches(name.value, pattern) {
        sounds := sounds + [name.value];
      }
    }
    var a := new string[|sounds|](i requires 0 <= i < |sounds| => sounds[i]);
    assert a[..] == sounds;
    StrLessIsStrictWeak(sounds);
    SortBy(a, StrLess);
    DistinctSortedIsStrict(sounds, a[..]);
    forall name ensures name in a[..] <==> name in sounds {
      assert name in a[..] <==> name in multiset(a[..]);
    }
    sounds := a[..];
  }

  /**
   * The loop of `list_sounds` so far: `sounds` holds, once each, the matching
   * names of the keys already visited, those not in `remaining`.
   */
  ghost predicate Gathered(objects: map<string, string>, remaining: set<string>, pattern: Option<string>,
                           sounds: seq<string>) {
    && (forall name :: name in sounds <==> SoundKey(name) in objects && SoundKey(name) !in remaining && Matches(name, pattern))
    && Distinct(sounds)
  }

  /** Visiting one more key keeps `Gathered`. */
  lemma GatherStep(objects: map<string, string>, remaining: set<string>, pattern: Option<string>,
                   sounds: seq<string>, k: string)
    requires k in remaining && remaining <= objects.Keys
    requires Gathered(objects, remaining, pattern, sounds)
    ensures var name := SoundName(k);
            Gathered(objects, remaining - {k}, pattern,
                     if name.Some? && Matches(name.value, pattern) then sounds + [name.value] else sounds)
  {
    var name := SoundName(k);
    var next := if name.Some? && Matches(name.value, pattern) then sounds + [name.value] else sounds;
    if name.Some? {
      KeyRoundTrip(k);
    }
    forall n ensures n in next <==> SoundKey(n) in objects && SoundKey(n) !in remaining - {k} && Matches(n, pattern) {
      if SoundKey(n) == k {
        NameRoundTrip(n);
      }
    }
  }

  lemma StrLessIsStrictWeak(s: seq<string>)
    ensures StrictWeakOn(StrLess, s)
  {
    forall x, y, z ensures !StrLess(x, x) && (StrLess(x, y) ==> !StrLess(y, x)) &&
                           (!StrLess(x, y) && !StrLess(y, z) ==> !StrLess(x, z)) {
      StrLessStrictTotal(x, y, z);
      StrLessStrictTotal(y, x, z);
      StrLessStrictTotal(z, y, x);
      StrLessStrictTotal(x, z, y);
    }
  }

  /** A sorted permutation of a list without repeats is strictly sorted. */
  lemma DistinctSortedIsStrict(orig: seq<string>, s: seq<string>)
    requires Distinct(orig) && multiset(s) == multiset(orig)
    requires SortedBy(StrLess, s)
    ensures StrictlySorted(s)
  {
    DistinctCountsOnce(orig);
    forall i, j | 0 <= i < j < |s| ensures StrLess(s[i], s[j]) {
      if s[i] == s[j] {
        TwiceCountsTwice(s, i, j);
      }
      StrLessStrictTotal(s[i], s[j], s[j]);
    }
  }

  lemma {:induction false} DistinctCountsOnce(s: seq<string>)
    requires Distinct(s)
    ensures forall x :: multiset(s)[x] <= 1
  {
    if s != [] {
      DistinctCountsOnce(s[1..]);
      assert s == [s[0]] + s[1..];
      assert s[0] !in s[1..];
    }
  }

  lemma TwiceCountsTwice(s: seq<string>, i: int, j: int)
    requires 0 <= i < j < |s| && s[i] == s[j]
    ensures multiset(s)[s[i]] >= 2
  {
    assert s == s[..j] + s[j..];
    assert s[i] in s[..j] && s[j] in s[j..];
  }

  /** `names` without the ones that do not contain `p`, order kept. */
  function FilterContaining(names: seq<string>, p: string): (r: seq<string>)
    ensures forall x :: x in r <==> x in names && Contains(x, p)
  {
    if names == [] then []
    else if Contains(names[0], p) then [names[0]] + FilterContaining(names[1..], p)
    else FilterContaining(names[1..], p)
  }

  lemma {:induction false} FilterKeepsOrder(names: seq<string>, p: string)
    requires StrictlySorted(names)
    ensures StrictlySorted(FilterContaining(names, p))
  {
    if names != [] {
      FilterKeepsOrder(names[1..], p);
      var rest := FilterContaining(names[1..], p);
      forall x | x in rest ensures StrLess(names[0], x) {
        var j :| 0 <= j < |names[1..]| && names[1..][j] == x;
        assert names[j + 1] == x;
      }
    }
  }

  /** Two strictly sorted lists with the same elements are the same list. */
  lemma {:induction false} SortedUnique(a: seq<string>, b: seq<string>)
    requires StrictlySorted(a) && StrictlySorted(b)
    requires forall x :: x in a <==> x in b
    ensures a == b
    decreases |a|
  {
    if a != [] && b != [] {
      assert a[0] in b && b[0] in a;
      if a[0] != b[0] {
        var i :| 0 <= i < |a| && a[i] == b[0];
        var j :| 0 <= j < |b| && b[j] == a[0];
        StrLessStrictTotal(a[0], b[0], a[0]);
      }
      forall x ensures x in a[1..] <==> x in b[1..] {
        if x in a[1..] {
          var i :| 0 <= i < |a[1..]| && a[1..][i] == x;
          assert StrLess(a[0], a[i + 1]);
          StrLessStrictTotal(x, x, x);
          assert x in b;
          var j :| 0 <= j < |b| && b[j] == x;
          assert j != 0;
          assert b[1..][j - 1] == x;
        }
        if x in b[1..] {
          var j :| 0 <= j < |b[1..]| && b[1..][j] == x;
          assert StrLess(b[0], b[j + 1]);
          StrLessStrictTotal(x, x, x);
          assert x in a;
          var i :| 0 <= i < |a| && a[i] == x;
          assert i != 0;
          assert a[1..][i - 1] == x;
        }
      }
      SortedUnique(a[1..], b[1..]);
      assert a == [a[0]] + a[1..] && b == [b[0]] + b[1..];
    } else {
      EmptyIffNoMember(a);
      EmptyIffNoMember(b);
    }
  }

  lemma EmptyIffNoMember(s: seq<string>)
    ensures s == [] <==> forall x :: x !in s
  {
    if s != [] {
      assert s[0] in s;
    }
  }

  /**
   * What `list_sounds` promises of two calls: with `Some(p)` it returns
   * exactly the names of the unfiltered listing that contain `p`, in the
   * same order; with `Some("")` it returns the unfiltered listing.
   */
  lemma PatternListingIsFiltered(assets: Assets, all: seq<string>, some: seq<string>, p: string)
    requires StrictlySorted(all)
    requires forall name :: name in all <==> SoundKey(name) in assets.objects && Matches(name, None)
    requires StrictlySorted(some)
    requires forall name :: name in some <==> SoundKey(name) in assets.objects && Matches(name, Some(p))
    ensures some == FilterContaining(all, p)
    ensures p == "" ==> some == all
  {
    FilterKeepsOrder(all, p);
    SortedUnique(some, FilterContaining(all, p));
    if p == "" {
      SortedUnique(some, all);
    }
  }

  /** The UTF-8 length of a character. */
  function Utf8Width(c: char): (w: nat)
    ensures 1 <= w <= 4
  {
    if c as int < 0x80 then 1 else if c as int < 0x800 then 2 else if c as int < 0x1_0000 then 3 else 4
  }

  /** The UTF-8 length of a string. */
  function Utf8Len(s: string): (n: nat)
    ensures n >= |s|
  {
    if s == [] then 0 else Utf8Width(s[0]) + Utf8Len(s[1..])
  }

  /** The UTF-8 lengths of the first one and the first two characters. */
  lemma Utf8LenOfHead(s: string)
    ensures |s| >= 1 ==> Utf8Len(s[..1]) == Utf8Width(s[0])
    ensures |s| >= 2 ==> Utf8Len(s[..2]) == Utf8Width(s[0]) + Utf8Width(s[1])
  {
    if |s| >= 1 {
      assert s[..1][1..] == [];
    }
    if |s| >= 2 {
      assert s[..2][1..] == s[1..2];
      assert s[1..2][1..] == [];
    }
  }

  /** `&hash[..2]` does not panic: some prefix of the hash is exactly two bytes long. */
  predicate FanOutDefined(hash: string)
    ensures FanOutDefined(hash) <==> exists n :: 0 < n <= |hash| && Utf8Len(hash[..n]) == 2
  {
    Utf8LenOfHead(hash);
    || (|hash| >= 1 && Utf8Width(hash[0]) == 2)
    || (|hash| >= 2 && Utf8Width(hash[0]) == 1 && Utf8Width(hash[1]) == 1)
  }

  /** `&hash[..2]`: the first two bytes, as characters. */
  function FanOut(hash: string): (r: string)
    requires FanOutDefined(hash)
    ensures StartsWith(hash, r) && Utf8Len(r) == 2
    ensures Utf8Width(hash[0]) == 1 ==> r == hash[..2]
  {
    Utf8LenOfHead(hash);
    if Utf8Width(hash[0]) == 2 then hash[..1] else hash[..2]
  }

  /** `<minecraft dir>/assets/objects/<hash[..2]>/<hash>`. */
  function ObjectPath(minecraftDir: Path, hash: string): (r: Path)
    requires FanOutDefined(hash)
    ensures hash[0] == '/' ==> r == hash
    ensures hash[0] != '/' ==> EndsWith(r, hash) && |r| > |hash|
  {
    Join(Join(Join(Join(minecraftDir, "assets"), "objects"), FanOut(hash)), hash)
  }

  /**
   * For a hash without `/` the object lies in the fan-out directory named by
   * its first two bytes, under the file name that is the whole hash.
   */
  lemma ObjectPathLayout(minecraftDir: Path, hash: string)
    requires FanOutDefined(hash) && '/' !in hash
    ensures ObjectPath(minecraftDir, hash) == Join(minecraftDir, "assets") + "/objects/" + FanOut(hash) + "/" + hash
  {
    var assets := Join(minecraftDir, "assets");
    assert assets[|assets| - 1] == 's';
    var objects := Join(assets, "objects");
    assert objects == assets + "/objects";
    var dir := JoinFanOut(objects, hash);
    assert hash[0] in hash;
    assert Join(dir, hash) == dir + "/" + hash;
    LayoutConcat(assets, FanOut(hash), hash);
  }

  /**
   * For a hash whose first two characters are ASCII, such as a hexadecimal
   * digest, the fan-out directory is named by those two characters.
   */
  lemma AsciiObjectPath(minecraftDir: Path, hash: string)
    requires |hash| >= 2 && hash[0] as int < 0x80 && hash[1] as int < 0x80 && '/' !in hash
    ensures FanOutDefined(hash) && FanOut(hash) == hash[..2]
    ensures ObjectPath(minecraftDir, hash) == Join(minecraftDir, "assets") + "/objects/" + hash[..2] + "/" + hash
  {
    ObjectPathLayout(minecraftDir, hash);
  }

  /** The concatenations of the layout, regrouped. */
  lemma LayoutConcat(assets: string, fan: string, hash: string)
    ensures assets + "/objects" + "/" + fan + "/" + hash == assets + "/objects/" + fan + "/" + hash
  {
    assert "/objects" + "/" == "/objects/";
  }

  /** Joining the fan-out directory of a hash without `/` onto a directory that does not end in `/`. */
  lemma JoinFanOut(objects: Path, hash: string) returns (dir: Path)
    requires FanOutDefined(hash) && '/' !in hash
    requires objects != [] && objects[|objects| - 1] != '/'
    ensures dir == Join(objects, FanOut(hash)) == objects + "/" + FanOut(hash)
    ensures dir != [] && dir[|dir| - 1] != '/'
  {
    var fan := FanOut(hash);
    assert fan[0] == hash[0] && fan[0] in hash;
    assert fan[|fan| - 1] == hash[|fan| - 1] && hash[|fan| - 1] in hash;
    dir := objects + "/" + fan;
  }

  datatype ResolveError =
    | SoundNotFound(name: string)  // no catalog key for the name
    | ObjectMissing(path: Path)    // the key is there but its object file is not

  /**
   * `resolve_sound`. `&hash[..2]` panics on a hash whose first two bytes are
   * not whole characters, so that is required of the hash found.
   */
  function ResolveSound(assets: Assets, name: string, present: set<Path>): (r: Result<Path, ResolveError>)
    requires SoundKey(name) in assets.objects ==> FanOutDefined(assets.objects[SoundKey(name)])
    ensures r == Failure(SoundNotFound(name)) <==> SoundKey(name) !in assets.objects
    ensures r.Success? ==> r.value in present
    ensures r.Success? ==> r.value == ObjectPath(assets.minecraftDir, assets.objects[SoundKey(name)])
    ensures SoundKey(name) in assets.objects ==>
              (r.Success? <==> ObjectPath(assets.minecraftDir, assets.objects[SoundKey(name)]) in present)
    ensures r.Failure? ==> r.error == SoundNotFound(name) || r.error.ObjectMissing?
    ensures r.Failure? && r.error.ObjectMissing? ==>
              SoundKey(name) in assets.objects &&
              r.error.path == ObjectPath(assets.minecraftDir, assets.objects[SoundKey(name)])
  {
    var key := SoundKey(name);
    if key !in assets.objects then Failure(SoundNotFound(name))
    else
      var path := ObjectPath(assets.minecraftDir, assets.objects[key]);
      if path !in present then Failure(ObjectMissing(path)) else Success(path)
  }

  /**
   * Every sound key of the catalog has a name `list_sounds` can return, and
   * `resolve_sound` finds that name; it then succeeds exactly when the object
   * file exists, and otherwise reports that file missing.
   */
  lemma CatalogKeysResolve(assets: Assets, k: string, present: set<Path>)
    requires k in assets.objects && IsSoundKey(k)
    requires FanOutDefined(assets.objects[k])
    ensures SoundName(k).Some? && SoundKey(SoundName(k).value) == k
    ensures ResolveSound(assets, SoundName(k).value, present).Success? <==>
              ObjectPath(assets.minecraftDir, assets.objects[k]) in present
    ensures ResolveSound(assets, SoundName(k).value, present).Success? ||
              ResolveSound(assets, SoundName(k).value, present) ==
              Failure(ObjectMissing(ObjectPath(assets.minecraftDir, assets.objects[k])))
  {
    SoundKeyHasName(k);
    KeyRoundTrip(k);
  }

  /** The parsed contents of an index file, or why there are none. */
  datatype IndexFile = Unreadable | Malformed | Parsed(objects: map<string, AssetObject>)

  datatype LoadError =
    | LocateFailed(locateError: LocateError)
    | IndexNotChosen(indexError: IndexError)
    | IndexUnreadable(path: Path)  // `fs::read_to_string` failed
    | IndexMalformed(path: Path)   // `serde_json::from_str` failed

  /** What `load` returns once the installation is `minecraftDir` and the chosen index is `path`, holding `file`. */
  function Loaded(minecraftDir: Path, path: Path, file: IndexFile): (r: Result<Assets, LoadError>)
    ensures r.Success? <==> file.Parsed?
    ensures r.Success? ==> r.value.minecraftDir == minecraftDir && r.value.objects == SoundObjects(file.objects)
    ensures r.Failure? ==> r.error == (if file.Unreadable? then IndexUnreadable(path) else IndexMalformed(path))
  {
    match file
    case Unreadable => Failure(IndexUnreadable(path))
    case Malformed => Failure(IndexMalformed(path))
    case Parsed(index) => Success(Assets(minecraftDir, SoundObjects(index)))
  }

  /** Reading an index file; a path the map does not hold cannot be read. */
  function ReadIndex(files: map<Path, IndexFile>, path: Path): (r: IndexFile)
    ensures path in files ==> r == files[path]
    ensures path !in files ==> r.Unreadable?
  {
    if path in files then files[path] else Unreadable
  }

  /**
   * `MinecraftAssets::load`: locate the installation, choose the index, read
   * and parse it, keep its sound entries. `listing` is what `fs::read_dir`
   * yields for the indexes directory and `files` what reading and parsing
   * each index file gives.
   */
  method Load(minecraftHome: Option<string>, os: Os, home: Option<Path>, dataDir: Option<Path>,
              present: set<Path>, listing: Option<seq<string>>, files: map<Path, IndexFile>)
    returns (r: Result<Assets, LoadError>)
    // Locating fails exactly when `find_minecraft_dir` does, with its error.
    ensures FindMinecraftDir(minecraftHome, os, home, dataDir, present).Failure? <==> r.Failure? && r.error.LocateFailed?
    ensures FindMinecraftDir(minecraftHome, os, home, dataDir, present).Failure? ==>
              r == Failure(LocateFailed(FindMinecraftDir(minecraftHome, os, home, dataDir, present).error))
    // Choosing an index fails exactly when `find_latest_index` does.
    ensures r.Failure? && r.error.IndexNotChosen? <==>
              && FindMinecraftDir(minecraftHome, os, home, dataDir, present).Success?
              && NoIndexToChoose(FindMinecraftDir(minecraftHome, os, home, dataDir, present).value, present, listing)
    // Otherwise the outcome is decided by reading the chosen index: its sound
    // entries when it parses, the read or parse error with its path when not.
    ensures FindMinecraftDir(minecraftHome, os, home, dataDir, present).Success? &&
            !NoIndexToChoose(FindMinecraftDir(minecraftHome, os, home, dataDir, present).value, present, listing) ==>
              var dir := FindMinecraftDir(minecraftHome, os, home, dataDir, present).value;
              exists path :: ChosenIndex(dir, listing, path) && r == Loaded(dir, path, ReadIndex(files, path))
    // and the error is `find_latest_index`'s own.
    ensures FindMinecraftDir(minecraftHome, os, home, dataDir, present).Success? &&
            NoIndexToChoose(FindMinecraftDir(minecraftHome, os, home, dataDir, present).value, present, listing) ==>
              var indexesDir := IndexesDir(FindMinecraftDir(minecraftHome, os, home, dataDir, present).value);
              r == Failure(IndexNotChosen(
                     if indexesDir !in present then NoIndexesDirectory
                     else if listing.None? then ReadDirFailed(indexesDir)
                     else NoIndexFiles(indexesDir)))
    ensures r.Success? ==> FindMinecraftDir(minecraftHome, os, home, dataDir, present) == Success(r.value.minecraftDir)
    ensures r.Success? ==> forall k :: k in r.value.objects ==> IsSoundKey(k)
  {
    var located := FindMinecraftDir(minecraftHome, os, home, dataDir, present);
    if located.Failure? {
      return Failure(LocateFailed(located.error));
    }
    var minecraftDir := located.value;
    var chosen := FindLatestIndex(minecraftDir, present, listing);
    if chosen.Failure? {
      return Failure(IndexNotChosen(chosen.error));
    }
    var indexPath := chosen.value;
    r := Loaded(minecraftDir, indexPath, ReadIndex(files, indexPath));
  }
}
