/**
 * A small installation worked through the model: an index holding one
 * sound and one texture, the catalog and listing built from it, and the
 * resolution of a name that is in it and of one that is not.
 */
module Scenario {
  import opened Wrappers
  import opened Text
  import opened Paths
  import opened Locate
  import opened IndexSelection
  import opened Catalog

  const DeathName := "mob/zombie/death1"
  const OtherName := "mob/zombie/death2"
  const DeathKey := "minecraft/sounds/mob/zombie/death1.ogg"
  const TextureKey := "minecraft/textures/foo.png"
  const DeathHash := "aa11"

  /** The parsed index: one sound entry and one texture entry. */
  function ZombieIndex(): map<string, AssetObject> {
    map[DeathKey := AssetObject(DeathHash, 100), TextureKey := AssetObject("bb22", 7)]
  }

  lemma DeathKeyIsSoundKey()
    ensures DeathKey == SoundKey(DeathName)
    ensures IsSoundKey(DeathKey) && SoundName(DeathKey) == Some(DeathName)
  {
    assert SoundPrefix + DeathName + SoundSuffix == DeathKey;
    NameRoundTrip(DeathName);
  }

  lemma TextureKeyIsNotSoundKey()
    ensures !IsSoundKey(TextureKey)
  {
    assert TextureKey[|TextureKey| - 4..] == ".png";
  }

  /** `load` keeps the sound entry with its hash and drops the texture. */
  lemma ZombieCatalog()
    ensures SoundObjects(ZombieIndex()) == map[DeathKey := DeathHash]
  {
    DeathKeyIsSoundKey();
    TextureKeyIsNotSoundKey();
  }

  /** Only the name `mob/zombie/death1` has its key in that catalog. */
  lemma OnlyDeathName(name: string)
    ensures SoundKey(name) in map[DeathKey := DeathHash] <==> name == DeathName
  {
    DeathKeyIsSoundKey();
    NameRoundTrip(name);
  }

  /** Listing that catalog without a pattern gives exactly `["mob/zombie/death1"]`. */
  lemma ZombieListing(sounds: seq<string>)
    requires StrictlySorted(sounds)
    requires forall name :: name in sounds <==>
               SoundKey(name) in SoundObjects(ZombieIndex()) && Matches(name, None)
    ensures sounds == [DeathName]
  {
    ZombieCatalog();
    forall name ensures name in sounds <==> name in [DeathName] {
      OnlyDeathName(name);
    }
    SortedUnique(sounds, [DeathName]);
  }

  /** The object of hash `aa11` lies in `<root>/assets/objects/aa/aa11`. */
  lemma ZombieObjectPath(root: Path)
    ensures FanOutDefined(DeathHash)
    ensures ObjectPath(root, DeathHash) == Join(root, "assets") + "/objects/" + "aa" + "/" + DeathHash
  {
    DeathHashIsHex();
    AsciiObjectPath(root, DeathHash);
  }

  lemma DeathHashIsHex()
    ensures |DeathHash| >= 2 && DeathHash[0] as int < 0x80 && DeathHash[1] as int < 0x80
    ensures '/' !in DeathHash && DeathHash[..2] == "aa"
  {
  }

  /**
   * Resolving `mob/zombie/death1` gives its object path when that file
   * exists and reports the file missing otherwise.
   */
  lemma ZombieResolves(root: Path, present: set<Path>)
    ensures SoundObjects(ZombieIndex()) == map[SoundKey(DeathName) := DeathHash]
    ensures FanOutDefined(DeathHash)
    ensures var path := ObjectPath(root, DeathHash);
            ResolveSound(Assets(root, SoundObjects(ZombieIndex())), DeathName, present) ==
            (if path in present then Success(path) else Failure(ObjectMissing(path)))
  {
    ZombieCatalog();
    ZombieObjectPath(root);
    OnlyDeathName(DeathName);
    DeathKeyIsSoundKey();
  }

  /** Resolving `mob/zombie/death2` reports the sound not found. */
  lemma OtherNotFound(root: Path, present: set<Path>)
    ensures ResolveSound(Assets(root, SoundObjects(ZombieIndex())), OtherName, present) == Failure(SoundNotFound(OtherName))
  {
    ZombieCatalog();
    OnlyDeathName(OtherName);
    assert OtherName != DeathName by {
      assert OtherName[16] == '2' && DeathName[16] == '1';
    }
  }

  /** The indexes directory lists just `5.json`, which is then the only index there is to pick. */
  lemma OnlyFiveJson()
    ensures JsonIndexes(["5.json"]) == ["5.json"]
    ensures forall name :: Selected(["5.json"], name) ==> name == "5.json"
  {
    JsonExtensionIff("5.json");
    assert "5.json"[1..] == ".json";
  }

  /**
   * Loading end to end: `MINECRAFT_HOME` names `root`, its indexes directory
   * holds only `5.json`, and that file parses to the zombie index. Then the
   * installation is `root`, there is an index to choose, and every index
   * `find_latest_index` may pick loads as the catalog holding the one sound
   * entry, so by `Catalog.Load`'s ensures that catalog is what `load` gives.
   */
  lemma FiveJsonLoads(root: Path, os: Os, home: Option<Path>, dataDir: Option<Path>)
    ensures FindMinecraftDir(Some(root), os, home, dataDir, {root, IndexesDir(root)}) == Success(root)
    ensures !NoIndexToChoose(root, {root, IndexesDir(root)}, Some(["5.json"]))
    ensures forall path :: ChosenIndex(root, Some(["5.json"]), path) ==>
              var files := map[Join(IndexesDir(root), "5.json") := Parsed(ZombieIndex())];
              Loaded(root, path, ReadIndex(files, path)) == Success(Assets(root, map[DeathKey := DeathHash]))
  {
    OnlyFiveJson();
    ZombieCatalog();
  }
}
