# Duplicate-file candidate reducer, modelled in Dafny

`find-duplicates.py` finds duplicate files under one or more directory trees.
It lists every file and then narrows the list in three stages. Each stage
groups the files it is given in a dictionary of lists, built with
`setdefault(key, []).append(path)`, and keeps only the groups that hold more
than one path:

1. the **size stage** (`filter_files_by_size`) groups by byte size. A file
   whose size cannot be read (`None`) or is zero fails the test `if file_size:`
   and is put in no group. The kept groups are concatenated.
2. the **prefix stage** (`filter_files_by_first_1k_bytes`) groups the
   survivors by a fingerprint of their first 1024 bytes. The kept groups are
   concatenated.
3. the **full stage** (`group_files_by_full_hash`) groups the survivors by a
   fingerprint of the whole content. The kept groups are returned as groups.
   These are the duplicate groups that `check_for_duplicates` prints.

The model has two modules.

- `Grouping` (`grouping.dfy`) holds the reduction the three stages share. It
  is generic in the path type `P` and the key type `K`. A discriminator is a
  total function `key: P -> Option<K>`, where `None` means "put in no group".
  The dictionary is the pair of a key list `order`, which is its insertion
  order, and a `map<K, seq<P>>`. Python dictionaries iterate in insertion
  order, and the model relies on that. The source's loops are the methods
  `GroupBy` (the `setdefault`/`append` loop), `ReduceByKey` (the `extend`
  loop) and `CollectGroups` (the final comprehension). Each is proved against
  specification functions: `Select` (the list of one key), `FirstSeen` (the
  dictionary's keys in order), `DuplicateGroups` and `Survivors`.
- `FindDuplicates` (`find_duplicates.dfy`) holds the three stages, their chain
  (`CheckForDuplicates`, lines 129-131) and the properties of each stage and
  of the chain. The file probes are parameters: `size: P -> Option<nat>`
  stands for `get_file_size`, and `prefixHash: P -> K1` and
  `fullHash: P -> K2` stand for `hash_first_1k_bytes` and `hash_file`. The
  size stage's discriminator maps a path to its size when that size is truthy
  (readable and not zero) and to `None` otherwise. A fingerprint stage's
  discriminator is `p => Some(hash(p))`, so those stages put every file in
  some group.

Paths are values of a type parameter, and the same path may occur twice in
the input (overlapping roots). So the properties speak of multisets:
"survives" means "keeps all its copies".

Notes on where the model follows the code rather than its description:

- The code calls `hash_first_1k_bytes` and `hash_file` without catching
  `OSError`, so a file that becomes unreadable after the size stage makes the
  run fail. It is not silently dropped. The model's fingerprints are total
  functions and no stage after the first drops a file for lack of a key.
- The final groups come out in the dictionary's insertion order, which is the
  order in which each fingerprint was first seen. They are not in an
  unspecified hash order.
- Two empty files are never reported, because `if file_size:` rejects size 0.
  The model keeps this behaviour (`SizeStageSurvivors`).
- In the three-file example ("hello", "hello", "world", all 5 bytes), the
  different file is dropped by the prefix stage, not by the full stage. Its
  first 1024 bytes are its whole content (`HelloWorldDropsDifferent`).

## Model

| member | source | states |
|---|---|---|
| `Grouping.Select` | find-duplicates.py:72-75 | The list the dictionary holds for a key contains only entries with that key and is no longer than the input. |
| `Grouping.SelectMultiset` | find-duplicates.py:72-75 | The list for key `k` holds every entry whose key is `k`, with its full multiplicity, and nothing else. |
| `Grouping.SelectEmpty` | find-duplicates.py:74-75 | The list for `k` is non-empty exactly when some entry has key `k`. |
| `Grouping.SelectAppend` | find-duplicates.py:73-75 | Grouping distributes over concatenation, so each list keeps the input order of its entries. |
| `Grouping.FirstSeen` | find-duplicates.py:55-59 | The dictionary's keys are pairwise distinct and are exactly the keys that occur in the input; unkeyed entries (size `None` or 0) add none. |
| `Grouping.FirstSeenOrder` | find-duplicates.py:55-59 | The keys iterate in the order of their first occurrence: the first entry with an earlier key precedes every entry with a later key. |
| `Grouping.MultiKeys` | find-duplicates.py:62-63 | The kept keys are exactly the given keys whose list has at least two entries. |
| `Grouping.GroupBy` | find-duplicates.py:72-75 | The `setdefault`/`append` loop ends with the insertion order equal to `FirstSeen`, the map's domain equal to that order, and the list for each key equal to `Select` for that key. |
| `Grouping.ReduceByKey` | find-duplicates.py:72-81 | Grouping and then extending the result with every list longer than one yields `Survivors`: the kept groups, concatenated in dictionary order. |
| `Grouping.CollectGroups` | find-duplicates.py:88-93 | Grouping and then keeping every list longer than one yields `DuplicateGroups`. |
| `Grouping.DuplicateGroupsSpec` | find-duplicates.py:88-93 | The kept groups correspond one to one to the keys shared by at least two entries. Each group is the whole `Select` list of its key and has at least two entries. The keys are distinct and come in first-seen order. |
| `Grouping.DuplicateGroupsMembers` | find-duplicates.py:88-93 | A member of a kept group is an input entry that is kept and carries the key of the group's first entry. |
| `Grouping.SurvivorsSelect` | find-duplicates.py:61-65 | Regrouping a stage's output gives, for each key, the input's whole list when it had at least two entries and nothing otherwise. So relative input order within a key survives. |
| `Grouping.SurvivorsMultiset` | find-duplicates.py:61-65 | An entry occurs in the output as often as in the input if its key is shared by at least two entries, and does not occur otherwise. |
| `Grouping.StageNarrows` | find-duplicates.py:77-81 | The output is a sub-multiset of the input and no longer than it. Every output entry is an input entry that is kept. |
| `Grouping.SurvivorsShareKeys` | find-duplicates.py:61-65 | Every output entry shares its key with at least one other output entry. |
| `Grouping.PairSurvives` | find-duplicates.py:77-81 | Two entries with one key, counted with multiplicity, are both kept and both reach the output. |
| `Grouping.PairGrouped` | find-duplicates.py:88-93 | Two entries with one key, counted with multiplicity, lie together in one kept group. |
| `FindDuplicates.FilterFilesBySize` | find-duplicates.py:51-65 | Computes the size stage's survivors. Every one has a readable non-zero size, and the output is a sub-multiset of the input. |
| `FindDuplicates.FilterFilesByFirst1kBytes` | find-duplicates.py:68-81 | Computes the prefix stage's survivors, a sub-multiset of its input. |
| `FindDuplicates.GroupFilesByFullHash` | find-duplicates.py:84-93 | Computes the final groups. Each has at least two entries, all with one full fingerprint. |
| `FindDuplicates.CheckForDuplicates` | find-duplicates.py:129-131 | Chaining the three stages yields `Pipeline`, and every reported group has at least two entries. |
| `FindDuplicates.SizeStageSurvivors` | find-duplicates.py:55-65 | The size stage never outputs a file with an unreadable or zero size. It keeps a file, with all its copies, exactly when its size is readable, non-zero and shared by another accepted entry. Every survivor shares its size with another survivor. |
| `FindDuplicates.PrefixStageSurvivors` | find-duplicates.py:72-81 | The prefix stage drops no file for lack of a key. It keeps a file, with all its copies, exactly when another input entry has the same prefix fingerprint. |
| `FindDuplicates.FullHashGroups` | find-duplicates.py:88-93 | Every final group has at least two entries, all with one full fingerprint. Distinct groups have distinct fingerprints. An entry lies, with all its copies, in the group of its fingerprint. The concatenated groups are exactly the entries whose fingerprint occurs at least twice. |
| `FindDuplicates.ReportedGroupsSound` | find-duplicates.py:129-131 | Every reported group has at least two entries sharing one full fingerprint. Each member was listed, has a readable non-zero size shared by another listed file, and has a prefix fingerprint shared by another size-stage survivor. |
| `FindDuplicates.ReportedGroupsAgree` | find-duplicates.py:129-131 | When the full fingerprint determines size and prefix fingerprint, the members of a reported group share one readable non-zero size, one prefix fingerprint and one full fingerprint. |
| `FindDuplicates.AgreeingPairReported` | find-duplicates.py:129-131 | Two listed entries that agree on a readable non-zero size and on both fingerprints are reported together in one group. |
| `FindDuplicates.CollisionGroupsDifferentSizes` | find-duplicates.py:84-93 | Fingerprint equality alone decides the final grouping: two files of different sizes with colliding fingerprints are reported together. |
| `FindDuplicates.HelloWorldReported` | find-duplicates.py:129-131 | In the three-file example, the two files with equal content are reported in one group. |
| `FindDuplicates.HelloWorldDropsDifferent` | find-duplicates.py:68-81 | In the three-file example, the file with other content is dropped by the prefix stage and is in no reported group. |

## Left out

- `list_files` (find-duplicates.py:9-17) walks the file system. Its result is the input sequence `files`.
- `get_file_size` (find-duplicates.py:20-27) is the parameter `size: P -> Option<nat>`; the operating-system call is not modelled.
- `hash_first_1k_bytes` and `hash_file` (find-duplicates.py:30-48) read files and compute SHA-1. They are the parameters `prefixHash` and `fullHash`. The model speaks only of fingerprint equality, not of content, chunk size or collision resistance.
- The exception these two raise on an unreadable file is not modelled, because the probes are total functions.
- A file that changes between stages is not modelled: each probe is a fixed function of the path.
- `file_size_string` (find-duplicates.py:96-107) uses floating-point logarithm and formatting and is not modelled.
- `print_duplicates`, `main` and the printing in `check_for_duplicates` (find-duplicates.py:110-146) are standard output, `sys.argv` and `sys.exit`, and are not modelled.
- The unused `TemporaryDirectory` import (find-duplicates.py:6) is not modelled.
- FindDuplicates.ReportedGroupsAgree: equal size and equal prefix fingerprint within a reported group are proved only under the hypothesis that the full fingerprint determines both, because the fingerprints are abstract. `CollisionGroupsDifferentSizes` shows that the hypothesis is needed.
