# radsim digestion core in Dafny

radsim simulates restriction digests of genomic sequences for RAD-seq style
protocols. This project models two parts of it.

- **The fragment-pairing engine** `Digest.iter_fragments` (`radsim/radsim/__init__.py`).
  A `Digest` holds one or two enzymes. The restriction search reports cut
  positions for each enzyme. These are folded into a site map from cut
  position to enzyme, where a later report of the same position overwrites an
  earlier one. The map is walked in ascending order of position. Each site
  after the first closes one `Fragment(lhs, rhs, lhsEnzyme, rhsEnzyme)`:
  - `rhs` is the end of the current site, `cut + fst3 - 1 + size`;
  - `lhs` is the start of the previous site, the previous end minus the
    previous enzyme's size.
- **The per-record tally** of `radsim/scripts/digest.py`. For every record it
  collects the fragment lengths. It then counts the lengths strictly between
  `minlen` and `maxlen`, or in count mode adds `max(0, n - 1)` once per
  fragment. The per-record counts are added to a grand total.

Files:

- `prelude.dfy` (module `Prelude`): `Option`, for an argument that may be
  omitted, and `MaxZero`, Python's `max(0, x)`.
- `sorting.dfy` (module `Sorting`): the ascending listing of a set of
  positions. It stands in for Python's `sorted`, applied to the site map.
- `radsim.dfy` (module `Radsim`): the enzyme, fragment, search-hit and site
  data. It also holds the `Digest` class and the three stages of
  `iter_fragments`: the method `CollectSites`, the function `SortedSites` and
  the method `WalkSites`. `DigestFragments` is the function they implement,
  and the lemmas about it follow.
- `digest_script.dfy` (module `DigestScript`): the length collection, the
  per-record count and the total over records.

Inputs that come from code outside the model:

- The result of Biopython's `RestrictionBatch.search` is an input: one
  `SearchHit(enzyme, cuts)` per enzyme, in the order the result is iterated.
- An enzyme is the record `Enzyme(name, size, fst3)`. The test vectors use
  Biopython's values: PstI has size 6 and fst3 -5; EcoRV has size 6 and fst3 -3.
- In the script, the fragments that `catalyse` returns for each record are an
  input. Fragments are character sequences.
- The script prints a record's count only when `verbose > 0`. The model
  returns the per-record counts as a sequence instead.

Where the code does less than its comments say, the model follows the code:

- `iter_fragments` ignores `strict`, despite its docstring
  (`radsim/radsim/__init__.py:38-41`) and the TODO at line 48. With two
  enzymes it still yields fragments that have the same enzyme at both ends.
  `Digest.IterFragments` takes `strict` and its result does not depend on it.
- In count mode the script adds `max(0, n - 1)` for each of the n fragments
  of a record. A record therefore counts `n * max(0, n - 1)`, not the number
  of cut sites that the comment at `radsim/scripts/digest.py:21-23` describes.

What the code does, and the model with it:

- `iter_fragments` applies no length filter to the fragments.
- Only fragments bordered by two sites are yielded, so the region before the
  first site is never yielded.
- A fragment runs from the first base of the previous recognition site to the
  first base after the current one, so consecutive fragments overlap by one
  recognition site.

## Model

| member | source | states |
|---|---|---|
| `Radsim.Digest.constructor` | radsim/radsim/__init__.py:27-33 | an omitted second enzyme defaults to the first; `enzymeSet` lists exactly the members of {enzyme, r2Enzyme}, without repeats, so it has 1 or 2 entries |
| `Radsim.DistinctEnzymes` | radsim/radsim/__init__.py:33 | the batch contains exactly `enzyme` and `r2Enzyme`, with no repeats; it has one entry when they are equal and two otherwise |
| `Radsim.SiteEnd` | radsim/radsim/__init__.py:65 | no contract of its own: the end of a site's recognition site, `cut + fst3 - 1 + size`; `Close` and `FragmentGeometry` state what follows from it |
| `Radsim.Register` | radsim/radsim/__init__.py:56-57 | after one hit is recorded, the map's keys are the old keys plus the hit's cuts; each of those cuts maps to the hit's enzyme; every other key keeps its old enzyme |
| `Radsim.SiteMap` | radsim/radsim/__init__.py:54-57 | no contract of its own: the dictionary fold over the search result; `SiteMapKeys`, `SiteMapLastWins` and `SiteMapCredit` characterise it completely |
| `Radsim.CollectSites` | radsim/radsim/__init__.py:54-57 | the nested loops build exactly the site map `SiteMap(search)` |
| `Radsim.SiteMapKeys` | radsim/radsim/__init__.py:54-57 | a position is in the site map if and only if some hit reports it |
| `Radsim.SiteMapLastWins` | radsim/radsim/__init__.py:55-57 | a position is credited to the enzyme of the last hit, in iteration order, that reports it |
| `Radsim.SiteMapCredit` | radsim/radsim/__init__.py:54-57 | every position in the map is credited to a hit that reports it, and no later hit reports that position |
| `Sorting.SortedKeys` | radsim/radsim/__init__.py:62 | the listing holds every element of the set once, in strictly ascending order |
| `Sorting.SortedKeysIs` | radsim/radsim/__init__.py:62 | any strictly ascending sequence with the set's elements is that listing, so the ascending walk order is unique |
| `Radsim.SortedSites` | radsim/radsim/__init__.py:62 | the walk has one site per map entry; each site carries the enzyme the map holds for its position; positions strictly ascend |
| `Radsim.SortedSitesCover` | radsim/radsim/__init__.py:62 | every position of the site map is visited |
| `Radsim.Close` | radsim/radsim/__init__.py:72-78 | the fragment starts at the first base of the previous site's recognition site, `cut + fst3 - 1`; its enzymes are the previous and the current site's; between two sites of the same enzyme it is the distance between the cuts plus one recognition site long |
| `Radsim.Pairs` | radsim/radsim/__init__.py:62-80 | a walk over n sites yields max(0, n - 1) fragments |
| `Radsim.PairsAt` | radsim/radsim/__init__.py:72-78 | fragment k is closed between sites k and k + 1; its lhs is the start of site k's recognition site and its rhs is the end of site k + 1's |
| `Radsim.WalkSites` | radsim/radsim/__init__.py:59-80 | the loop, with the first site only seeding `this_pair` and `last_enzyme`, yields exactly the fragments `Pairs(sites)` |
| `Radsim.Digest.IterFragments` | radsim/radsim/__init__.py:35-80 | the result is `DigestFragments(search)` whatever `strict` is; when the search reports only the digest's enzymes, both ends of every fragment are among them |
| `Radsim.DigestFragments` | radsim/radsim/__init__.py:54-80 | no contract of its own: what `iter_fragments` yields; `FragmentCount`, `FragmentGeometry`, `FragmentsChain` and `FragmentEndsReported` state its meaning |
| `Radsim.FragmentCount` | radsim/radsim/__init__.py:62-67 | the number of fragments is max(0, d - 1), where d is the number of distinct reported positions; zero or one site yields nothing |
| `Radsim.FragmentGeometry` | radsim/radsim/__init__.py:62-78 | fragment k runs from site k to site k + 1, which has a strictly greater position; `lhs == cut_k + fst3_k - 1`; `rhs == cut_{k+1} + fst3_{k+1} - 1 + size_{k+1}`; the two enzymes are the ones the site map holds for those positions |
| `Radsim.FragmentsChain` | radsim/radsim/__init__.py:72-79 | the next fragment's left enzyme is the previous fragment's right enzyme, and its lhs is the previous rhs minus that enzyme's size, so adjacent fragments share one recognition site |
| `Radsim.FragmentEndsReported` | radsim/radsim/__init__.py:54-78 | both ends of every fragment are credited to an enzyme that appears in the search result |
| `Radsim.DigestOfThreeSites` | radsim/radsim/__init__.py:59-80 | a site map with three positions yields the two fragments between consecutive positions |
| `Radsim.PstIDigest` | radsim/tests/test_radsim_digest.py:12-23 | PstI cuts at 8, 19 and 29 yield Fragment(2, 19, PstI, PstI) and Fragment(13, 29, PstI, PstI) |
| `Radsim.PstIEcoRVDigest` | radsim/tests/test_radsim_digest.py:31-42 | PstI cuts at 8 and 29 with an EcoRV cut at 17 yield Fragment(2, 19, PstI, EcoRV) and Fragment(13, 29, EcoRV, PstI) |
| `Radsim.SameEnzymeEndsKept` | radsim/radsim/__init__.py:35-48 | with PstI and EcoRV in the search, the fragment between two PstI sites is still yielded |
| `Prelude.MaxZero` | radsim/scripts/digest.py:37 | the result is the larger of 0 and x |
| `DigestScript.FragmentLengths` | radsim/scripts/digest.py:29-32 | one length per fragment, in order, each equal to that fragment's length |
| `DigestScript.CountInRange` | radsim/scripts/digest.py:38-39 | the number of lengths in range is at most the number of fragments |
| `DigestScript.CountInRangeIndices` | radsim/scripts/digest.py:35-39 | the count equals the number of positions whose length satisfies minlen < length < maxlen; both bounds are exclusive |
| `DigestScript.RecordCount` | radsim/scripts/digest.py:34-39 | starting from 0, the count is n * max(0, n - 1) in count mode (0 when n <= 1); otherwise it is the number of lengths strictly between minlen and maxlen |
| `DigestScript.RecordTally` | radsim/scripts/digest.py:34-39 | outside count mode a record counts for at most its number of fragments; in count mode it counts for 0 exactly when it has at most one fragment |
| `DigestScript.CountModeTally` | radsim/scripts/digest.py:21-39 | in count mode a record of three fragments counts for 6, not for the 2 cut sites the comment describes |
| `DigestScript.Sum` | radsim/scripts/digest.py:42 | the total is at least the count of every single record |
| `DigestScript.SumMonotone` | radsim/scripts/digest.py:42 | the running total over records never decreases |
| `DigestScript.TallyRecords` | radsim/scripts/digest.py:18-42 | one count per record; each depends only on that record's fragments and the options, because `record_count` restarts at 0; the total is the sum of those counts |

## Left out

- `RestrictionBatch.search`, `Seq` and `IUPACAmbiguousDNA` are Biopython code. The model does not do IUPAC pattern matching or Biopython's cut-coordinate convention. The search result is an input.
- The laziness of the `iter_fragments` generator: the fragments are returned as one finite sequence.
- The order of `enzyme_set`: the code builds it from a Python set, whose order is unspecified. The model lists `enzyme` first.
- `list_enzymes` (radsim/radsim/__init__.py:13-17): it prints the global Biopython enzyme dictionary to a stream.
- `output_frag_fasta` and `output_frag_bed` (radsim/radsim/__init__.py:83-93, also in radsim/radsim/utils.py): these only format output to a stream.
- radsim/radsim/main.py: command-line handling and a floating-point histogram. It imports a `.digest` module and `seqfile_iter_frags`, and neither is part of this model.
- The rest of `main` in radsim/scripts/digest.py: choosing enzymes by name, opening and parsing the FASTA file, `cutter.catalyse`, and printing. The fragments of each record are an input. Only the last `cutter` of the loop at line 9 is used, so the enzyme choice does not enter the tally.
- radsim/radsim/test/test_radsim_digest.py: it tests an interface (`re_sites`, a five-field `Fragment`) that the code does not have. The vectors come from radsim/tests/test_radsim_digest.py instead.
