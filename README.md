# Telomere k-mer search: repeat families and dump parsing, in Dafny

This project models the two programs at the centre of the telomere k-mer
search pipeline:

- **The repeat finder** (`find_repeats_from_kmers.py`). It takes a table of
  DNA k-mer counts and visits the k-mers from the most frequent to the least
  frequent. A k-mer that is not yet attributed to a family, and whose
  minimal period (its tandem repeat unit) is shorter than 19, seeds a
  family. The family belongs to the canonical form of that unit: the least
  string among all rotations of the unit and their reverse complements. The
  family's members are the canonical 19-mers that a perfect tandem array of
  the unit shows, one per reading frame. Each member is looked up in the
  count table, with 0 when it is absent. Each member that is a key raises
  that key's tracker by one per occurrence. The family is kept, and gets a
  report row, when fewer than `maxzeroes` of its members have count 0.
- **The dump parser** (`discard_singletons.py`). It reads a k-mer count
  dump. Marker lines `>count` set the current count and are tallied in a
  histogram. Every other line, right-stripped, is stored with the current
  count, but only when that count is strictly greater than the cutoff.

How each part is modelled:

- `dna.dfy` (module `Dna`): the four-letter alphabet, the reverse
  complement, and Python's string order, proved to be a total order.
- `repeat_units.dfy` (module `RepeatUnits`): the minimal repeat frame, the
  rotations in every reading frame, the canonical repeat and the canonical
  k-mer.
- `expected_kmers.dfy` (module `ExpectedKmers`): the expected k-mers of a
  repeat unit. The generator is a method with a loop, proved against the
  specification function `ExpectedWindows`.
- `family_pass.dfy` (module `FamilyPass`): the main loop.
  - The state is the tracker, the kept families and the report rows.
  - The specification is a fold `PassFrom` of one-visit steps `Step`.
  - The methods `FindRepeats`, `Visit`, `VisitFamily` and `TallyFamily`
    follow the source's loops and are proved equal to that fold.
- `discard_singletons.dfy` (module `DumpParser`): the parsing loop as a
  method. Its postcondition ties the histogram and the kept map to
  functions of the input lines.
- `modular.dfy` (module `Modular`): arithmetic helpers.

Where the code and its documentation disagree, the model follows the code:

- The `--cutoff` help text calls the cutoff inclusive. The code keeps a
  k-mer only when its count is strictly greater than the cutoff, and so
  does the model (`DumpParser.KeptEntries`).
- `get_expected_kmers_from_repeat` documents that k must be longer than the
  unit. When it is not, the function *returns* a `ValueError` object; it
  does not raise one. The model returns `ValueError` as a value.

## Model

| member | source | states |
|---|---|---|
| RepeatUnits.RepeatFrameFrom | find_repeats_from_kmers.py:18-32 | From a starting frame, the recursion returns the first frame f at or above it where the string equals itself shifted by f, with the unit s[0:f] |
| RepeatUnits.RepeatFrame | find_repeats_from_kmers.py:18-32 | The repeat length is the smallest f ≥ 1 at which s[0:-f] == s[f:]. It is at most len(s). The unit is s[0:f]. The empty string gives (1, "") |
| RepeatUnits.ShiftMatchesIsSliceCompare | find_repeats_from_kmers.py:29 | The shift test used by RepeatFrame is exactly the slice comparison s[0:-f] == s[f:] |
| RepeatUnits.RepeatUnitTiles | find_repeats_from_kmers.py:18-32 | Every character of the string is the unit's character at the same position modulo the repeat length |
| ExpectedKmers.StringIsTandemOfUnit | find_repeats_from_kmers.py:18-32 | A string is the length-len(s) prefix of the tandem array of its repeat unit |
| RepeatUnits.Rotations | find_repeats_from_kmers.py:34-41 | The list has len(s) entries, each of length len(s). The first is s. Each next entry is the previous one with its last character moved to the front |
| RepeatUnits.RotationsAreRotations | find_repeats_from_kmers.py:34-41 | Entry i of the list is the right rotation of s by i places |
| RepeatUnits.RotationsCloseOrbit | find_repeats_from_kmers.py:34-41 | One more rotation step after the last entry gives s back |
| RepeatUnits.RotationStep | find_repeats_from_kmers.py:41 | Moving the last character to the front of rotation i gives rotation i + 1 |
| RepeatUnits.RotationCompose | find_repeats_from_kmers.py:34-41 | Rotating by i and then by j is rotating by i + j modulo the length |
| RepeatUnits.RotationSetOfRotation | find_repeats_from_kmers.py:43-55 | Every rotation of a unit has the same set of reading frames as the unit |
| RepeatUnits.RevCompsAreOppositeStrand | find_repeats_from_kmers.py:50-51 | The list `seqs_rc` holds exactly the reading frames of the opposite strand: every entry is a rotation of the unit's reverse complement, and every such rotation is an entry |
| RepeatUnits.RevCompOfRotation | find_repeats_from_kmers.py:49-53 | The reverse complement of rotation i is rotation len - i of the reverse complement |
| RepeatUnits.RotationSetOfRevComp | find_repeats_from_kmers.py:49-53 | The rotations of the reverse complement are the reverse complements of the rotations |
| RepeatUnits.CandidatesAreClass | find_repeats_from_kmers.py:49-53 | The list `seqs + seqs_rc` holds exactly the repeat class: every reading frame on both strands |
| RepeatUnits.CanonicalRepeat | find_repeats_from_kmers.py:43-55 | The first entry after sorting is in the repeat class, is no greater than any member of it, and is a DNA string of the unit's length |
| RepeatUnits.CanonicalRepeatOfSameClass | find_repeats_from_kmers.py:43-55 | Two units with the same repeat class have the same canonical repeat |
| RepeatUnits.CanonicalRepeatRotationInvariant | find_repeats_from_kmers.py:43-55 | Every reading frame of a unit has the unit's canonical repeat |
| RepeatUnits.CanonicalRepeatRevCompInvariant | find_repeats_from_kmers.py:43-55 | The reverse complement of a unit has the unit's canonical repeat |
| RepeatUnits.CanonicalRepeatIdempotent | find_repeats_from_kmers.py:43-55 | The canonical repeat is its own canonical repeat |
| RepeatUnits.CanonicalKmer | find_repeats_from_kmers.py:57-62 | The result is the k-mer or its reverse complement, whichever comes first in string order |
| RepeatUnits.CanonicalKmerRevComp | find_repeats_from_kmers.py:57-62 | A k-mer and its reverse complement have the same canonical k-mer |
| RepeatUnits.CanonicalKmerIdempotent | find_repeats_from_kmers.py:57-62 | The canonical k-mer is its own canonical k-mer |
| Dna.RevComp | find_repeats_from_kmers.py:51 | The reverse complement keeps the length and the alphabet |
| Dna.RevCompInvolution | find_repeats_from_kmers.py:51 | Reverse complementing twice gives the string back |
| Dna.RevCompConcat | find_repeats_from_kmers.py:51 | The reverse complement of a concatenation is the reverse complements in swapped order |
| Dna.LexLeTotal | find_repeats_from_kmers.py:54 | Any two strings are comparable in Python's string order |
| Dna.LexLeAntisymmetric | find_repeats_from_kmers.py:54 | Two strings each at most the other are equal, so the first after sorting is unique |
| Dna.LexLeTransitive | find_repeats_from_kmers.py:54 | The string order is transitive |
| Dna.Least | find_repeats_from_kmers.py:54-55 | `sorted(xs)[0]` is a member of xs no greater than any other member |
| Dna.LeastOfSameSet | find_repeats_from_kmers.py:54-55 | Lists with the same members have the same first entry after sorting |
| ExpectedKmers.RepeatLength | find_repeats_from_kmers.py:77 | `s * n` has length n · len(s) |
| ExpectedKmers.RepeatAt | find_repeats_from_kmers.py:77 | Character j of `s * n` is character j mod len(s) of s |
| ExpectedKmers.TandemWindowAt | find_repeats_from_kmers.py:73-77 | `s*quot + s[0:rmdr]` has length k, and its character j is character j mod len(s) of s |
| ExpectedKmers.RotationWindow | find_repeats_from_kmers.py:76-78 | The window of one reading frame has length k and is DNA when the unit is |
| ExpectedKmers.ExpectedWindows | find_repeats_from_kmers.py:72-81 | There are len(unit) expected k-mers, each of length k. With canonicalisation each one is a DNA fixed point of the canonical k-mer |
| ExpectedKmers.ExpectedWindowReadsTandemArray | find_repeats_from_kmers.py:72-78 | Expected k-mer i is the length-k read of the tandem array u u u … starting at offset len(u) - i |
| ExpectedKmers.GetExpectedKmers | find_repeats_from_kmers.py:64-81 | When k ≤ len(u) the result is the ValueError with the source's message. When the unit is empty and k > 0 the result is ZeroDivisionError. Otherwise the result is the expected k-mers, canonical when asked |
| FamilyPass.Distinct | find_repeats_from_kmers.py:112-121 | The keys of `outrec` in insertion order: the same members as the expected list, none twice |
| FamilyPass.ZeroCount | find_repeats_from_kmers.py:122 | The zero count of `outrec` is at most its number of keys |
| FamilyPass.ZeroCountIsZeroKeys | find_repeats_from_kmers.py:122 | Over distinct keys, `list(values).count(0)` is the number of keys whose value is 0 |
| FamilyPass.ObservedZeroes | find_repeats_from_kmers.py:114-122 | The zero count of `outrec` is the number of distinct expected k-mers whose lookup gives 0 |
| FamilyPass.FamilyZeroesCountsZeroKmers | find_repeats_from_kmers.py:113-122 | A family's zero count is the number of its distinct members that are absent or have count 0 |
| FamilyPass.Family | find_repeats_from_kmers.py:113 | A family has one member per reading frame. Each member is a canonical DNA 19-mer |
| FamilyPass.BumpedSnoc | find_repeats_from_kmers.py:117-118 | One more expected k-mer raises the tracker by one when it is a key. Otherwise the tracker is unchanged |
| FamilyPass.ObservedSnoc | find_repeats_from_kmers.py:117-121 | One more expected k-mer sets its `outrec` entry to its count, or to 0 when it is absent |
| FamilyPass.DistinctSnoc | find_repeats_from_kmers.py:117-121 | One more expected k-mer adds a key to `outrec` only when it is new |
| FamilyPass.TallyFamily | find_repeats_from_kmers.py:112-121 | The inner loop leaves three things. The tracker is raised by each member's number of occurrences, for keys only. `outrec` maps each member to its count or 0. Its keys are the members in first-occurrence order |
| FamilyPass.SeedRep | find_repeats_from_kmers.py:109-111 | A seed's canonical unit is a non-empty DNA string shorter than 19 |
| FamilyPass.TotalIsLookupSum | find_repeats_from_kmers.py:125 | Over `outrec`'s distinct keys, `sum(outrec.values())` is the sum of the counts (0 when absent) of the key set, whatever the key order |
| FamilyPass.LookupSumRemove | find_repeats_from_kmers.py:125 | The sum over a set of k-mers does not depend on which member is taken first |
| FamilyPass.FamilyRowCounts | find_repeats_from_kmers.py:122-128 | The report row is the unit, the sum of the counts of the family's distinct members (0 when absent), and the number of those members that are absent or have count 0 |
| FamilyPass.Absorb | find_repeats_from_kmers.py:112-129 | Absorbing a family keeps the tracker's key set |
| FamilyPass.Step | find_repeats_from_kmers.py:104-129 | One visit keeps the tracker's key set |
| FamilyPass.PassFrom | find_repeats_from_kmers.py:104-129 | The tracker keeps the key set of the count table along the whole pass |
| FamilyPass.VisitFamily | find_repeats_from_kmers.py:112-129 | Handling one family gives the state Absorb specifies |
| FamilyPass.Visit | find_repeats_from_kmers.py:108-129 | The loop body for one k-mer gives the state Step specifies |
| FamilyPass.FindRepeats | find_repeats_from_kmers.py:90-129 | For any order that is the keys sorted by non-increasing count, the loop gives the state PassFrom specifies from the all-zero tracker. The tracker keeps the key set |
| FamilyPass.SortedTrackerIsInit | find_repeats_from_kmers.py:90-102 | The tracker built from the sorted keys starts at 0 on exactly the keys of the count table |
| FamilyPass.PassFromSuffix | find_repeats_from_kmers.py:104 | Visiting order[i:] is visiting order[i] and then order[i+1:] |
| FamilyPass.PassFromAppend | find_repeats_from_kmers.py:104 | Visiting a + b is visiting a and then b |
| FamilyPass.SeedUnitFits | find_repeats_from_kmers.py:109-113 | A seed's canonical unit is shorter than 19, so the generator's ValueError branch is never taken in the pass |
| FamilyPass.StepTrackerGrows | find_repeats_from_kmers.py:114-118 | One visit never lowers a tracker value |
| FamilyPass.StepSkipsMarked | find_repeats_from_kmers.py:108 | A visit to a k-mer with a non-zero tracker changes nothing |
| FamilyPass.TrackerMonotone | find_repeats_from_kmers.py:102-118 | Tracker values never decrease along the pass |
| FamilyPass.MarkedVisitIsVoid | find_repeats_from_kmers.py:104-108 | Once a k-mer has a non-zero tracker, any later visit to it is void: removing it from the rest of the order leaves the outcome unchanged |
| FamilyPass.ConsumedAppend | find_repeats_from_kmers.py:114-118 | The occurrences in two runs of families add up |
| FamilyPass.TrackerCountsOccurrences | find_repeats_from_kmers.py:114-121 | A key's tracker grows by exactly its number of occurrences among the members of every family examined, kept or rejected |
| FamilyPass.PassSound | find_repeats_from_kmers.py:104-129 | Every state the pass reaches satisfies the invariant. Every kept family is an accepted canonical unit, recorded with each member's count or 0. Every row is the row of a kept family, and every kept family has a row |
| FamilyPass.StepPreservesSound | find_repeats_from_kmers.py:108-129 | One visit preserves that invariant, whether the family is kept or rejected |
| FamilyPass.KeepPreservesSound | find_repeats_from_kmers.py:122-129 | Keeping an accepted family, with its record and its row, preserves the invariant |
| FamilyPass.KeepOutSound | find_repeats_from_kmers.py:123 | Storing `out[rep] = outrec` for an accepted family keeps every stored family correct |
| FamilyPass.KeepRowsSound | find_repeats_from_kmers.py:124-129 | Appending the family's row keeps every row correct |
| FamilyPass.KeepRowsCover | find_repeats_from_kmers.py:122-129 | After the row is appended, every kept family has a row |
| FamilyPass.PassResult | find_repeats_from_kmers.py:90-129 | The whole pass leaves a state that satisfies the invariant. Every tracker value is the number of times that key was expected by an examined family |
| FamilyPass.SeedVisit | find_repeats_from_kmers.py:108-129 | A seed's family is tallied into the tracker, kept or not. When fewer than `maxzeroes` distinct members have count 0, the rows become the old rows followed by the family's row, and `out[rep]` becomes its record. Otherwise rows and `out` are unchanged |
| FamilyPass.KeptKmersCanonical | find_repeats_from_kmers.py:79-81 | Every k-mer recorded for a kept family is a canonical 19-mer mapped to its count or 0 |
| DumpParser.RStripIsTrailingTrim | discard_singletons.py:30 | `rstrip()` keeps a prefix, removes only whitespace, and leaves a string that is empty or ends in a non-space |
| DumpParser.RStripIdempotent | discard_singletons.py:30 | Stripping a stripped line changes nothing |
| DumpParser.DiscardSingletons | discard_singletons.py:23-37 | The histogram maps each announced count to its number of markers, and its frequencies sum to the number of markers, whatever the cutoff. The kept map's keys are exactly the stripped non-marker lines read while the current count exceeded the cutoff. Each key holds the count in effect at its last such occurrence |
| DumpParser.HistoStep | discard_singletons.py:31-34 | A marker line raises the frequency of its count by one. Any other line leaves the histogram unchanged |
| DumpParser.HistoSumBump | discard_singletons.py:34 | `histo[c] += 1` raises the sum of frequencies by one |
| DumpParser.HistoSumRemove | discard_singletons.py:34 | The sum of frequencies does not depend on the order in which keys are taken |
| DumpParser.KeeperStep | discard_singletons.py:35-37 | A kept line sets its key to the current count, overwriting any earlier value. Other lines leave the map unchanged |
| DumpParser.LastKeptShrinks | discard_singletons.py:37 | A later kept line with the same key overwrites an earlier one |
| DumpParser.LastMarkerBefore | discard_singletons.py:26-33 | Gives the index of the last marker before a line, with no marker between, or -1 when there is none |
| DumpParser.CountBeforeIsLastMarker | discard_singletons.py:26-33 | The count in effect at a line is the value of the last marker before it, or 0 when no marker precedes it |
| DumpParser.PreMarkerLinesDropped | discard_singletons.py:26-37 | Lines before the first marker see count 0. With a non-negative cutoff they are never kept |
| DumpParser.LastOccurrence | discard_singletons.py:37 | Every kept line's key has a last kept occurrence |
| DumpParser.KeptEntries | discard_singletons.py:30-37 | Every kept value is strictly above the cutoff. No marker line is a key. Every key is already stripped |

## Left out

- Reading and writing files, argument parsing, JSON, and the progress and
  summary prints. The count table, the visiting order, `maxzeroes`, the
  dump's lines and the cutoff are parameters. The kept families and the
  report rows are returned.
- The coefficient of variation in the report (`pstdev / mean`, a float). It
  also raises ZeroDivisionError when every member's count is 0 and the
  family is kept (possible only when `maxzeroes` exceeds the family size).
  Report rows carry the unit, the total and the zero count only.
- `Bio.Seq.reverse_complement` is replaced by the complement over `A`,
  `C`, `G` and `T`. Keys of the count table must be non-empty strings over
  that alphabet (`FamilyPass.ValidCounts`). IUPAC ambiguity codes and lower
  case are not modelled. An empty key makes `get_canonical_repeat` fail
  with IndexError in the source; the model excludes it instead.
- The tie order of `sorted`. `FamilyPass.FindRepeats` accepts any order
  that lists each key once with non-increasing counts. Python's stable
  sort picks one of these orders.
- The mutable default argument `seqs = []` of `recurse_repeat_arr`. Every
  caller passes a fresh `[]`, so the model builds a fresh list.
- The unused string literal at `find_repeats_from_kmers.py:138-156`,
  which holds an older report block and is never executed.
- `DumpParser.IsMarker`: `\d` and `int()` accept every Unicode decimal
  digit. The model accepts only ASCII digits.
- `DumpParser.DiscardSingletons`: lines are a sequence of strings. Line
  splitting and encodings are not modelled. The `defaultdict`s are plain
  maps.
- `FamilyPass.MarkedVisitIsVoid`: the claim "a k-mer already counted at
  position i of the order never seeds at a later position" is stated over
  states rather than over order indices. From any state where the k-mer is
  marked, visiting it again has no effect. Together with
  `FamilyPass.PassFromAppend` and `FamilyPass.TrackerMonotone`, this gives
  the index form.
- The pass's independence from the order among equal counts is not
  proved. The result can depend on that order.
- `RepeatUnits.RepeatFrame` and `RepeatUnits.Rotations`: `get_repeat_frame`
  and `recurse_repeat_arr` recurse once per frame. Under Python's default
  recursion limit of 1000, a key of about 1000 characters with no shorter
  period raises RecursionError. The model has no depth limit and returns a
  result for keys of any length.
- `ExpectedKmers.TandemWindow`: `floor(k / len(seq))` divides in floating
  point, which is exact only while the operands stay below about 2^53. The
  model uses exact integer division. In the pass k is 19 and the unit is
  shorter than 19, so the two agree there.
