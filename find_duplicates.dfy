/**
 * The candidate reducer of find-duplicates.py: a flat list of paths is
 * narrowed by size, then by a fingerprint of the first 1024 bytes, then
 * grouped by a fingerprint of the whole content.
 *
 * The per-file probes enter as total, deterministic functions:
 * `size` stands for get_file_size (`None` when the size cannot be read),
 * `prefixHash` for hash_first_1k_bytes and `fullHash` for hash_file. Paths are
 * the type parameter `P`; the fingerprints are compared only for equality.
 */
module FindDuplicates {
  import opened Grouping

  /** Python truthiness of get_file_size's result: `None` and `0` are false. */
  predicate Truthy(size: Option<nat>) {
    size.Some? && size.value != 0
  }

  /** The size stage's discriminator: files failing `if file_size:` get no key. */
  function SizeKey<P>(size: P -> Option<nat>): P -> Option<nat> {
    p => if Truthy(size(p)) then size(p) else None
  }

  /** A fingerprint stage's discriminator: every file is grouped. */
  function HashKey<P, K>(hash: P -> K): P -> Option<K> {
    p => Some(hash(p))
  }

  /** Survivors of the size stage. */
  function SizeStage<P(==,!new)>(files: seq<P>, size: P -> Option<nat>): seq<P> {
    Survivors(SizeKey(size), files)
  }

  /** Survivors of the size stage and then of the prefix stage. */
  function PrefixStage<P(==,!new), K1(==,!new)>(files: seq<P>, size: P -> Option<nat>, prefixHash: P -> K1): seq<P> {
    Survivors(HashKey(prefixHash), SizeStage(files, size))
  }

  /** The duplicate groups the three chained stages report. */
  function Pipeline<P(==,!new), K1(==,!new), K2(==,!new)>(
    files: seq<P>, size: P -> Option<nat>, prefixHash: P -> K1, fullHash: P -> K2): seq<seq<P>>
  {
    DuplicateGroups(HashKey(fullHash), PrefixStage(files, size, prefixHash))
  }

  // ---------------------------------------------------------------------------
  // The stages
  // ---------------------------------------------------------------------------

  /** filter_files_by_size */
  method FilterFilesBySize<P(==,!new)>(filePaths: seq<P>, size: P -> Option<nat>) returns (duplicates: seq<P>)
    ensures duplicates == SizeStage(filePaths, size)
    ensures forall p :: p in duplicates ==> Truthy(size(p))
    ensures multiset(duplicates) <= multiset(filePaths)
  {
    duplicates := ReduceByKey(SizeKey(size), filePaths);
    SizeStageSurvivors(filePaths, size);
    StageNarrows(SizeKey(size), filePaths);
  }

  /** filter_files_by_first_1k_bytes */
  method FilterFilesByFirst1kBytes<P(==,!new), K1(==,!new)>(filePaths: seq<P>, prefixHash: P -> K1)
    returns (duplicates: seq<P>)
    ensures duplicates == Survivors(HashKey(prefixHash), filePaths)
    ensures multiset(duplicates) <= multiset(filePaths)
  {
    duplicates := ReduceByKey(HashKey(prefixHash), filePaths);
    StageNarrows(HashKey(prefixHash), filePaths);
  }

  /** group_files_by_full_hash */
  method GroupFilesByFullHash<P(==,!new), K2(==,!new)>(filePaths: seq<P>, fullHash: P -> K2)
    returns (duplicates: seq<seq<P>>)
    ensures duplicates == DuplicateGroups(HashKey(fullHash), filePaths)
    ensures forall i :: 0 <= i < |duplicates| ==>
              |duplicates[i]| >= 2 && forall p :: p in duplicates[i] ==> fullHash(p) == fullHash(duplicates[i][0])
  {
    duplicates := CollectGroups(HashKey(fullHash), filePaths);
    FullHashGroups(filePaths, fullHash);
  }

  /** The chain inside check_for_duplicates, from the listed files to the reported groups. */
  method CheckForDuplicates<P(==,!new), K1(==,!new), K2(==,!new)>(
    files: seq<P>, size: P -> Option<nat>, prefixHash: P -> K1, fullHash: P -> K2)
    returns (duplicates: seq<seq<P>>)
    ensures duplicates == Pipeline(files, size, prefixHash, fullHash)
    ensures forall g :: g in duplicates ==> |g| >= 2
  {
    var candidates := FilterFilesBySize(files, size);
    candidates := FilterFilesByFirst1kBytes(candidates, prefixHash);
    duplicates := GroupFilesByFullHash(candidates, fullHash);
    ReportedGroupsSound(files, size, prefixHash, fullHash);
  }

  // ---------------------------------------------------------------------------
  // Properties of each stage
  // ---------------------------------------------------------------------------

  /**
   * The size stage keeps a file, with all its copies, exactly when its size is
   * readable, not zero, and shared by at least one other accepted entry; so it
   * never outputs an unreadable or empty file, and every survivor shares its
   * size with another survivor.
   */
  lemma SizeStageSurvivors<P(!new)>(files: seq<P>, size: P -> Option<nat>)
    ensures forall p :: p in SizeStage(files, size) ==> Truthy(size(p))
    ensures forall p :: multiset(SizeStage(files, size))[p] ==
              if Truthy(size(p)) && |Select(SizeKey(size), files, size(p).value)| >= 2
              then multiset(files)[p] else 0
    ensures forall p :: p in SizeStage(files, size) ==>
              |Select(SizeKey(size), SizeStage(files, size), size(p).value)| >= 2
  {
    StageNarrows(SizeKey(size), files);
    SurvivorsMultiset(SizeKey(size), files);
    SurvivorsShareKeys(SizeKey(size), files);
  }

  /**
   * The prefix stage drops no file for lack of a key: it keeps a file, with all
   * its copies, exactly when its prefix fingerprint equals that of at least one
   * other input entry.
   */
  lemma PrefixStageSurvivors<P(!new), K1(!new)>(files: seq<P>, prefixHash: P -> K1)
    ensures forall p :: multiset(Survivors(HashKey(prefixHash), files))[p] ==
              if |Select(HashKey(prefixHash), files, prefixHash(p))| >= 2 then multiset(files)[p] else 0
  {
    SurvivorsMultiset(HashKey(prefixHash), files);
  }

  /**
   * The final stage: every group has at least two entries, all with one full
   * fingerprint; distinct groups have distinct fingerprints; an entry whose
   * fingerprint occurs at least twice lies, with all its copies, in the group
   * of its fingerprint, and the groups together hold exactly those entries.
   */
  lemma FullHashGroups<P(!new), K2(!new)>(files: seq<P>, fullHash: P -> K2)
    ensures forall i :: 0 <= i < |DuplicateGroups(HashKey(fullHash), files)| ==>
              |DuplicateGroups(HashKey(fullHash), files)[i]| >= 2
    ensures forall i, p | 0 <= i < |DuplicateGroups(HashKey(fullHash), files)| ::
              p in DuplicateGroups(HashKey(fullHash), files)[i] ==>
                fullHash(p) == fullHash(DuplicateGroups(HashKey(fullHash), files)[i][0])
    ensures forall i, j :: 0 <= i < j < |DuplicateGroups(HashKey(fullHash), files)| ==>
              fullHash(DuplicateGroups(HashKey(fullHash), files)[i][0]) !=
              fullHash(DuplicateGroups(HashKey(fullHash), files)[j][0])
    ensures forall i, p | 0 <= i < |DuplicateGroups(HashKey(fullHash), files)| ::
              fullHash(p) == fullHash(DuplicateGroups(HashKey(fullHash), files)[i][0]) ==>
                multiset(DuplicateGroups(HashKey(fullHash), files)[i])[p] == multiset(files)[p]
    ensures forall p :: multiset(Flatten(DuplicateGroups(HashKey(fullHash), files)))[p] ==
              if |Select(HashKey(fullHash), files, fullHash(p))| >= 2 then multiset(files)[p] else 0
  {
    var key := HashKey(fullHash);
    var gs, ks := DuplicateGroups(key, files), GroupKeys(key, files);
    DuplicateGroupsSpec(key, files);
    SurvivorsMultiset(key, files);
    forall i | 0 <= i < |gs| ensures fullHash(gs[i][0]) == ks[i] {
      assert gs[i][0] in Select(key, files, ks[i]);
    }
    forall i, p | 0 <= i < |gs| && fullHash(p) == fullHash(gs[i][0])
      ensures multiset(gs[i])[p] == multiset(files)[p]
    {
      SelectMultiset(key, files, ks[i]);
    }
  }

  // ---------------------------------------------------------------------------
  // Properties of the chained stages
  // ---------------------------------------------------------------------------

  /**
   * Every reported group has at least two entries sharing one full
   * fingerprint; each of its files was listed, has a readable non-zero size
   * that another listed file shares, and a prefix fingerprint that another
   * size-stage survivor shares.
   */
  lemma ReportedGroupsSound<P(!new), K1(!new), K2(!new)>(
    files: seq<P>, size: P -> Option<nat>, prefixHash: P -> K1, fullHash: P -> K2)
    ensures forall g :: g in Pipeline(files, size, prefixHash, fullHash) ==> |g| >= 2
    ensures forall g, p, q :: g in Pipeline(files, size, prefixHash, fullHash) && p in g && q in g ==>
      fullHash(p) == fullHash(q)
    ensures forall g, p :: g in Pipeline(files, size, prefixHash, fullHash) && p in g ==>
      && p in files
      && Truthy(size(p))
      && |Select(SizeKey(size), files, size(p).value)| >= 2
      && |Select(HashKey(prefixHash), SizeStage(files, size), prefixHash(p))| >= 2
  {
    var s2 := SizeStage(files, size);
    var s3 := PrefixStage(files, size, prefixHash);
    DuplicateGroupsSpec(HashKey(fullHash), s3);
    DuplicateGroupsMembers(HashKey(fullHash), s3);
    StageNarrows(HashKey(prefixHash), s2);
    StageNarrows(SizeKey(size), files);
  }

  /**
   * When the full fingerprint determines the size and the prefix fingerprint
   * (no collision), all files of a reported group have one readable non-zero
   * size, one prefix fingerprint and one full fingerprint.
   */
  lemma ReportedGroupsAgree<P(!new), K1(!new), K2(!new)>(
    files: seq<P>, size: P -> Option<nat>, prefixHash: P -> K1, fullHash: P -> K2)
    requires forall p, q :: fullHash(p) == fullHash(q) ==> size(p) == size(q) && prefixHash(p) == prefixHash(q)
    ensures forall g, p, q :: g in Pipeline(files, size, prefixHash, fullHash) && p in g && q in g ==>
      && Truthy(size(p))
      && size(p) == size(q)
      && prefixHash(p) == prefixHash(q)
      && fullHash(p) == fullHash(q)
  {
    ReportedGroupsSound(files, size, prefixHash, fullHash);
  }

  /**
   * Any two listed entries (two copies of one path count) that agree on a
   * readable non-zero size, on the prefix fingerprint and on the full
   * fingerprint are reported together in one group.
   */
  lemma AgreeingPairReported<P(!new), K1(!new), K2(!new)>(
    files: seq<P>, size: P -> Option<nat>, prefixHash: P -> K1, fullHash: P -> K2, a: P, b: P)
    requires multiset{a, b} <= multiset(files)
    requires Truthy(size(a)) && size(a) == size(b)
    requires prefixHash(a) == prefixHash(b) && fullHash(a) == fullHash(b)
    ensures exists g :: g in Pipeline(files, size, prefixHash, fullHash) && multiset{a, b} <= multiset(g)
  {
    PairSurvives(SizeKey(size), files, a, b);
    PairSurvives(HashKey(prefixHash), SizeStage(files, size), a, b);
    PairGrouped(HashKey(fullHash), PrefixStage(files, size, prefixHash), a, b);
  }

  // ---------------------------------------------------------------------------
  // A fingerprint collision groups files of different sizes
  // ---------------------------------------------------------------------------

  function ExampleSize(p: string): Option<nat> {
    Some(|p|)
  }

  /** Every file gets the same fingerprint, as under a collision. */
  function ExampleHash(p: string): int {
    0
  }

  /**
   * Nothing but fingerprint equality decides the last two stages: when two
   * files of different sizes collide, the pipeline reports them in one group.
   */
  lemma CollisionGroupsDifferentSizes(files: seq<string>)
    requires files == ["a", "b", "cc", "dd"]
    ensures exists g :: g in Pipeline(files, ExampleSize, ExampleHash, ExampleHash) &&
              "a" in g && "cc" in g && ExampleSize("a") != ExampleSize("cc")
  {
    var sizeKey := SizeKey(ExampleSize);
    forall p | p in files ensures sizeKey(p) == Some(|p|) {
      assert sizeKey(p) == if Truthy(ExampleSize(p)) then ExampleSize(p) else None;
    }
    assert |"a"| == |"b"| == 1 && |"cc"| == |"dd"| == 2;
    assert multiset{"a", "b"} <= multiset(files);
    assert multiset{"cc", "dd"} <= multiset(files);
    PairSurvives(sizeKey, files, "a", "b");
    PairSurvives(sizeKey, files, "cc", "dd");
    var s2 := SizeStage(files, ExampleSize);
    assert multiset{"a", "cc"} <= multiset(s2);
    var hashKey := HashKey(ExampleHash);
    assert hashKey("a") == Some(ExampleHash("a")) && hashKey("cc") == Some(ExampleHash("cc"));
    PairSurvives(hashKey, s2, "a", "cc");
    var s3 := PrefixStage(files, ExampleSize, ExampleHash);
    assert multiset{"a", "cc"} <= multiset(s3);
    PairGrouped(hashKey, s3, "a", "cc");
    var g :| g in DuplicateGroups(hashKey, s3) && multiset{"a", "cc"} <= multiset(g);
    assert "a" in g && "cc" in g;
    assert g in Pipeline(files, ExampleSize, ExampleHash, ExampleHash);
    assert ExampleSize("a") == Some(1) && ExampleSize("cc") == Some(2);
  }

  // ---------------------------------------------------------------------------
  // Three small files: two equal, one different
  // ---------------------------------------------------------------------------

  /** Contents of files `a`, `b` and `c`; all are shorter than 1024 bytes. */
  function ScenarioContent(p: string): string {
    if p == "c" then "world" else "hello"
  }

  function ScenarioSize(p: string): Option<nat> {
    Some(|ScenarioContent(p)|)
  }

  /** A list whose entries all equal one path holds that path as often as it is long. */
  lemma {:induction false} AllCopies<P>(s: seq<P>, x: P)
    requires forall p :: p in s ==> p == x
    ensures multiset(s)[x] == |s|
  {
    if s != [] {
      assert s == [s[0]] + s[1..];
      assert s[0] in s;
      forall p | p in s[1..] ensures p == x {
        var i :| 0 <= i < |s[1..]| && s[1..][i] == p;
        assert s[i + 1] in s;
      }
      AllCopies(s[1..], x);
    }
  }

  /** `a` and `b`, equal in size and content, are reported together. */
  lemma HelloWorldReported(files: seq<string>)
    requires files == ["a", "b", "c"]
    ensures exists g :: g in Pipeline(files, ScenarioSize, ScenarioContent, ScenarioContent) &&
              "a" in g && "b" in g
  {
    var sizeKey := SizeKey(ScenarioSize);
    assert "a"[0] != "c"[0] && "b"[0] != "c"[0];
    assert ScenarioContent("a") == ScenarioContent("b") == "hello";
    assert ScenarioSize("a") == ScenarioSize("b") == Some(5);
    assert multiset{"a", "b"} <= multiset(files);
    AgreeingPairReported(files, ScenarioSize, ScenarioContent, ScenarioContent, "a", "b");
    var g :| g in Pipeline(files, ScenarioSize, ScenarioContent, ScenarioContent) && multiset{"a", "b"} <= multiset(g);
    assert "a" in g && "b" in g;
  }

  /**
   * `c`, of equal size but other content, is already dropped by the prefix
   * stage, since its first 1024 bytes are its whole content; it is in no
   * reported group.
   */
  lemma HelloWorldDropsDifferent(files: seq<string>)
    requires files == ["a", "b", "c"]
    ensures "c" !in PrefixStage(files, ScenarioSize, ScenarioContent)
    ensures forall g :: g in Pipeline(files, ScenarioSize, ScenarioContent, ScenarioContent) ==> "c" !in g
  {
    var sizeKey, hashKey := SizeKey(ScenarioSize), HashKey(ScenarioContent);
    var s2 := SizeStage(files, ScenarioSize);
    var s3 := PrefixStage(files, ScenarioSize, ScenarioContent);
    var world := Select(hashKey, s2, "world");
    StageNarrows(sizeKey, files);
    StageNarrows(hashKey, s2);
    SelectMultiset(hashKey, s2, "world");
    forall p | p in world ensures p == "c" {
      assert hashKey(p) == Some(ScenarioContent(p));
    }
    assert multiset(files)["c"] == 1;
    AllCopies(world, "c");
    assert hashKey("c") == Some("world");
    assert "c" !in s3;
    DuplicateGroupsMembers(HashKey(ScenarioContent), s3);
  }
}
