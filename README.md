# Jobs sequencer and jobs parser, modelled in Dafny

The repository is a small Ruby service for the "On The Beach" jobs exercise. It has two parts:

- `OTB::JobsParser` reads a string of `job => dependency` pairs. The string is validated against a schema, and the pairs found by a regular-expression scan are folded into an insertion-ordered hash.
- `OTB::JobsSequencer` takes that hash and returns a string of job ids, each once. If a job depends on itself it reports `SelfDependencyError`; if the dependency walk comes back to the job or its dependency it reports `CircularReferenceError`.

Each `call` returns its result as a `Success`. The shared `Service.call` returns a `Failure` when validation fails, and turns the permissible errors raised during the work into a `Failure` too.

The model follows the code as written:

- **Hash and ids.** A job id is one character. A hash value is either `''` or one id (`Token = Empty | Name(c)`). The hash is a sequence of entries in insertion order (`JobsHash`).
- **Sequencer** (`JobsSequencer`).
  - `CircularDependency` is the recursive walk of `circular_dependency?`. It is bounded by fuel, one step per entry, and reports `Loops` when the fuel runs out.
  - `CircularWalk.LoopsForever` proves that such a walk never returns, however much fuel it is given. In Ruby it ends in a stack overflow, which `Service.call` does not rescue, and the model calls that outcome `Diverges`.
  - The `inject` loop is the method `Sequence`. It is proved equal to `Sequenced`, which splits into `Screen` (the first pair whose checks fail) and `Placed` (the working list after all placements), followed by `uniq` and `join`.
- **Parser** (`JobsParser`).
  - `ScanFrom` is Ruby's leftmost, non-overlapping `scan` with the greedy `(\w|)` capture.
  - `Scan` and `Parse` are its loops.
  - `Valid` is the schema: `nil` fails; `''` passes; any other string passes when the expression matches somewhere.
  - `Render` writes a hash in the text format the examples use, and `ParseRender` proves that parsing it gives the hash back.
- **Worked examples.** `SequencerVectors`, `ParserVectors` and `IntegrationVectors` work the repository's examples through the model. As in the Ruby tests, each `\n` in the test strings is a backslash followed by `n`: the strings are single-quoted.

The service's stated purpose is that every job comes after the job it depends on. The code does not guarantee this. `{'y' => 'x', 'd' => 'e', 'x' => 'd', 'e' => ''}` gives `dxye`, with `d` before `e` (`SequencerVectors.DependencyAfterJob`). The model follows the code and proves no general ordering theorem. What it does prove is the ordering of a single placement step (`JobsSequencer.PlaceOrders`).

Which error is reported depends on entry order. `{'x' => 'z', 'z' => 'z'}` gives a circular reference, while `{'z' => 'z', 'x' => 'z'}` gives a self dependency (`SequencerVectors.ErrorDependsOnOrder`).

## Model

| member | source | states |
|---|---|---|
| Seqs.IndexOf | lib/jobs_sequencer.rb:51 | `find_index` returns nothing exactly when the element is absent. Otherwise it returns an index holding the element, with no occurrence before it. |
| Seqs.Uniq | lib/jobs_sequencer.rb:58 | Definition of `uniq`, with no contract of its own. Its behaviour is stated by `Seqs.UniqFacts`, `Seqs.UniqOfDistinct` and `Seqs.UniqKeepsFirstOccurrenceOrder`. |
| Seqs.UniqFacts | lib/jobs_sequencer.rb:58 | `uniq` leaves no duplicates, keeps exactly the elements of its input, and never lengthens it. |
| Seqs.UniqOfDistinct | lib/jobs_sequencer.rb:58 | `uniq` of a list without duplicates is that list. |
| Seqs.UniqSnoc | lib/jobs_sequencer.rb:58 | Unfolding step for the proofs about `uniq`: one more element is appended if it is new and dropped otherwise. |
| Seqs.UniqKeepsFirstOccurrenceOrder | lib/jobs_sequencer.rb:58 | `uniq` puts x before y exactly when x first occurs before y in its input. |
| JobsHash.Get | lib/jobs_sequencer.rb:82 | `jobs_hash[k]` is nil exactly when k is not a key. Otherwise it is the value of an entry with key k. |
| JobsHash.GetEntry | lib/jobs_sequencer.rb:82 | With distinct keys, looking up an entry's key finds that entry's value. |
| JobsHash.Store | lib/jobs_parser.rb:45 | `hash[k] = v` keeps an existing key in place and appends a new one. Afterwards k maps to v, every other key keeps its value, keys stay distinct, and no other entry is created. |
| JobsHash.StoreNew | lib/jobs_parser.rb:45 | Unfolding step for the proofs about `[]=`: storing a key that is not yet present appends its entry. |
| JobsHash.StoreExisting | lib/jobs_parser.rb:45 | Storing a key that is present replaces its value in place. |
| JobsSequencer.Parent | lib/jobs_sequencer.rb:82 | Definition of `jobs_hash[selected]`, where `''` is never a key, with no contract of its own. Its behaviour is stated by `JobsHash.Get` and the `CircularWalk` rows. |
| JobsSequencer.SelfDependency | lib/jobs_sequencer.rb:97-99 | Rejects with `SelfDependencyError` exactly when the dependency is the job itself, and otherwise passes. |
| JobsSequencer.CircularDependency | lib/jobs_sequencer.rb:81-90 | The walk can only reject with `CircularReferenceError`. It passes when the selected value has no entry. |
| JobsSequencer.Errors | lib/jobs_sequencer.rb:66-73 | `errors?` reports a self dependency exactly when the job depends on itself. That check runs before any walk. |
| JobsSequencer.Place | lib/jobs_sequencer.rb:51-55 | Definition of one step of the `inject` block, with no contract of its own. Its behaviour is stated by `JobsSequencer.PlaceAppends`, `PlaceInserts`, `PlaceMembers` and `PlaceOrders`. |
| JobsSequencer.PlaceAppends | lib/jobs_sequencer.rb:53-54 | Unfolding step for the proofs about the placement: a job not yet in the list is appended, after its dependency when the dependency is not `''`. |
| JobsSequencer.PlaceInserts | lib/jobs_sequencer.rb:51-52 | A job already in the list gets its dependency inserted at the job's first index. Everything before stays and the rest shifts by one. |
| JobsSequencer.PlaceMembers | lib/jobs_sequencer.rb:51-55 | One placement adds the job and its dependency and loses no id. |
| JobsSequencer.PlaceOrders | lib/jobs_sequencer.rb:51-55 | Right after a placement, a non-empty dependency comes before the job. |
| JobsSequencer.Placed | lib/jobs_sequencer.rb:47-56 | Definition of the list the `inject` builds, with no contract of its own. Its behaviour is stated by `JobsSequencer.PlacedIds`, `SequencerProperties.PlacedNoDependencies` and `JobsSequencer.Sequence`. |
| JobsSequencer.PlacedIds | lib/jobs_sequencer.rb:47-56 | The working list after the `inject` names exactly the keys and the non-empty dependencies. |
| JobsSequencer.Join | lib/jobs_sequencer.rb:58 | Definition of `join`, with no contract of its own. Its behaviour is stated by `JobsSequencer.JoinMembers` and `SequencerProperties.JoinNames`. |
| JobsSequencer.JoinMembers | lib/jobs_sequencer.rb:58 | `join` holds exactly the named ids, and has no repeat when the list has none. |
| JobsSequencer.Screen | lib/jobs_sequencer.rb:47-49 | Every pair passes its checks exactly when the screen accepts. Otherwise the verdict is that of a pair all of whose predecessors pass. |
| JobsSequencer.ScreenStopsAt | lib/jobs_sequencer.rb:47-49 | The first pair whose checks fail decides the screen. |
| JobsSequencer.Sequenced | lib/jobs_sequencer.rb:36-59 | On success the output has no repeated id, and holds exactly the keys and the non-empty dependencies. |
| JobsSequencer.Sequence | lib/jobs_sequencer.rb:46-59 | The interleaved `inject` loop, which checks each pair and then mutates the list, ends exactly in `Sequenced`. |
| CircularWalk.WalkMonotone | lib/jobs_sequencer.rb:81-90 | More fuel never changes a verdict the walk has reached. |
| CircularWalk.LoopsMeansLive | lib/jobs_sequencer.rb:81-90 | Running out of fuel means every position visited had a parent that was neither the job nor its dependency. |
| CircularWalk.LiveMeansLoops | lib/jobs_sequencer.rb:81-90 | Conversely, that many such positions exhaust the fuel. |
| CircularWalk.LoopsRepeats | lib/jobs_sequencer.rb:81-90 | A walk that runs out of fuel of at least one step per entry revisits a position. |
| CircularWalk.LoopsForever | lib/jobs_sequencer.rb:81-90 | A walk that runs out of one step per entry runs out of any fuel: the Ruby recursion never returns. |
| CircularWalk.LiveAfterRepeat | lib/jobs_sequencer.rb:81-90 | Past a repeated position the walk goes round the same positions forever. |
| CircularWalk.RejectedMeansHit | lib/jobs_sequencer.rb:82-84 | A rejected walk reached a key whose value is the job or its dependency. |
| CircularWalk.HitMeansRejected | lib/jobs_sequencer.rb:82-84 | Reaching such a key within the fuel rejects the walk. |
| CircularWalk.CircularReferenceDetected | lib/jobs_sequencer.rb:66-90 | When following the dependency reaches a key whose value is the job or its dependency, the pair fails with `CircularReferenceError`. |
| CircularWalk.LoopsGivesCycle | lib/jobs_sequencer.rb:81-90 | A walk that never returns means the hash has a cycle: some key reaches itself again. |
| CircularWalk.RepeatIsCycle | lib/jobs_sequencer.rb:81-90 | A position met twice, the first time with a parent, lies on a cycle. |
| CircularWalk.RejectedGivesCycle | lib/jobs_sequencer.rb:81-90 | A pair rejected as circular means the hash has a cycle: some key reaches itself again. |
| CircularWalk.AcyclicAccepted | lib/jobs_sequencer.rb:66-90 | In a hash without cycles every pair passes its checks. |
| CircularWalk.CycleRejected | lib/jobs_sequencer.rb:66-90 | A key that reaches itself again makes its own pair fail. |
| CircularWalk.SucceedsIffAcyclic | lib/jobs_sequencer.rb:36-90 | The call succeeds exactly when the dependency graph has no cycle, self dependencies included. |
| SequencerProperties.JoinNames | lib/jobs_sequencer.rb:58 | Joining the ids of a string gives that string back. |
| SequencerProperties.PlacedNoDependencies | lib/jobs_sequencer.rb:54 | With no dependencies every job is appended in hash order. |
| SequencerProperties.NoDependencies | lib/jobs_sequencer.rb:46-59 | A hash without dependencies is sequenced as its keys, in insertion order. |
| SequencerProperties.FirstErrorDecides | lib/service.rb:23-30 | The first pair whose checks fail ends the call. Its error becomes the `Failure`, and a walk that never returns becomes a divergence. |
| SequencerProperties.SelfDependencyFails | lib/jobs_sequencer.rb:66-68 | A self-dependent job never lets the call succeed. It is reported as `SelfDependencyError` when the pairs before it pass. |
| SequencerProperties.SuccessIffAllAccepted | lib/service.rb:23-30 | Success exactly when every pair passes. A failure carries an error that some pair's checks reported. |
| JobsParser.IsWord | lib/jobs_parser.rb:44 | Definition of Ruby's ASCII `\w`, with no contract of its own. It is used by `JobsParser.PairAt`, `ValueAt` and `ScanFrom`. |
| JobsParser.PairAt | lib/jobs_parser.rb:44 | Definition of a match of `/(\w) => (\w\|)/` at one position, with no contract of its own. Its behaviour is stated by `JobsParser.ScanFindsIffMatch` and `ScanFrom`. |
| JobsParser.ValueAt | lib/jobs_parser.rb:44 | The greedy second capture is a word character exactly when one follows the arrow, and otherwise `''`. |
| JobsParser.PairEnd | lib/jobs_parser.rb:44 | The scan resumes after the five or six matched characters, within the string. |
| JobsParser.ScanFrom | lib/jobs_parser.rb:44 | Every captured key and value is a `\w` capture. |
| JobsParser.ScanFindsIffMatch | lib/jobs_parser.rb:44 | The scan captures something exactly when the expression matches somewhere. |
| JobsParser.Scan | lib/jobs_parser.rb:44 | The scanning loop yields exactly the scan's captures, in order. |
| JobsParser.LastValue | lib/jobs_parser.rb:44-46 | A key has a last value exactly when it was captured. |
| JobsParser.Collected | lib/jobs_parser.rb:44-46 | The folded hash has distinct keys, and holds only captured pairs. |
| JobsParser.CollectedKeys | lib/jobs_parser.rb:44-46 | The hash's keys are the captured keys in first-occurrence order: a repeated key keeps its first position. |
| JobsParser.CollectedGet | lib/jobs_parser.rb:44-46 | Each key maps to the last value captured for it. |
| JobsParser.CollectedDistinct | lib/jobs_parser.rb:44-46 | With no repeated key the hash is the captured pairs as they are. |
| JobsParser.Parse | lib/jobs_parser.rb:43-47 | The hash-filling loop ends in the fold of the scan. Its keys are distinct, and keys and values are `\w` captures. |
| JobsParser.ScanShift | lib/jobs_parser.rb:44 | The scan from a position depends only on the text after it. |
| JobsParser.ScanRender | lib/jobs_parser.rb:44 | Scanning a rendered hash gives its entries back, in order. |
| JobsParser.ParseRender | lib/jobs_parser.rb:14-47 | A rendered hash with distinct keys passes validation and parses back to itself. |
| JobsParser.Valid | lib/jobs_parser.rb:13-15 | Definition of the schema `str? & empty? \| format?`, with no contract of its own. Its behaviour is stated by `JobsParser.Validate`, `Call` and `ValidIffNonEmptyParse`. |
| JobsParser.Validate | lib/jobs_parser.rb:13-15 | The schema check, searching position by position, accepts exactly `Valid` inputs. |
| JobsParser.Call | lib/jobs_parser.rb:25-36 | `JobsParser.call` fails exactly on inputs the schema rejects. Otherwise its hash is the fold of the scan. |
| JobsParser.ValidIffNonEmptyParse | lib/jobs_parser.rb:14-47 | A string passes validation exactly when it is empty or parses to a non-empty hash. |
| CycleReport.EndlessIsCircular | lib/jobs_sequencer.rb:81-90 | As written, `{'x' => 'a', 'a' => 'b', 'b' => 'c', 'c' => 'b'}` has a cycle, yet the call diverges. |
| CycleReport.ReportedReportsEveryCycle | lib/jobs_sequencer.rb:81-90 | Corrected: the call always succeeds or fails permissibly, and succeeds exactly when there is no cycle, with the same output. |
| CycleReport.EndlessReported | lib/jobs_sequencer.rb:81-90 | Corrected: the endless hash gives `CircularReferenceError`. |
| SequencerVectors.NoJobs | spec/lib/job_sequencer_spec.rb:27-33 | `{}` gives `''`. |
| SequencerVectors.SingleJob | spec/lib/job_sequencer_spec.rb:36-41 | `{'a' => ''}` gives `a`. |
| SequencerVectors.ThreeSequenced | spec/lib/job_sequencer_spec.rb:44-50 | `{'a' => '', 'b' => '', 'c' => ''}` gives `abc`. |
| SequencerVectors.Acb | spec/lib/job_sequencer_spec.rb:52-69 | `{'a' => '', 'b' => 'c', 'c' => ''}` gives `acb`. |
| SequencerVectors.Cba | lib/jobs_sequencer.rb:34 | `{'a' => 'b', 'b' => 'c'}` gives `cba`. |
| SequencerVectors.Afcbde | spec/lib/job_sequencer_spec.rb:72-97 | The six-job hash gives `afcbde`. |
| SequencerVectors.SelfDependencyReported | spec/lib/job_sequencer_spec.rb:100-113 | `{'a' => '', 'b' => 'b', 'c' => ''}` fails with `SelfDependencyError`. |
| SequencerVectors.CircularReferenceReported | spec/lib/job_sequencer_spec.rb:116-129 | The circular hash fails with `CircularReferenceError`. |
| SequencerVectors.ErrorDependsOnOrder | lib/jobs_sequencer.rb:47-49 | The same two entries in the two orders give the two different errors. |
| SequencerVectors.DependencyAfterJob | lib/jobs_sequencer.rb:46-59 | `{'y' => 'x', 'd' => 'e', 'x' => 'd', 'e' => ''}` gives `dxye`, with a job before its dependency. |
| SequencerVectors.EndlessWalk | lib/jobs_sequencer.rb:81-90 | `{'x' => 'a', 'a' => 'b', 'b' => 'c', 'c' => 'b'}` diverges: the walk for `x` loops at any fuel. |
| ParserVectors.NilRejected | spec/lib/jobs_parser_spec.rb:12-16 | `nil` fails validation. |
| ParserVectors.HelloWorldRejected | spec/lib/jobs_parser_spec.rb:18-22 | `'hello world'` fails validation. |
| ParserVectors.EmptyParsed | spec/lib/jobs_parser_spec.rb:41-45 | `''` is valid and parses to `{}`. |
| ParserVectors.NoDependenciesParsed | spec/lib/jobs_parser_spec.rb:48-62 | `'a => \nb => \nc => '` is valid and gives three keys with `''` values. |
| ParserVectors.AllDependenciesParsed | spec/lib/jobs_parser_spec.rb:64-78 | `'a => b\nb => c\nc => d'` gives `{'a' => 'b', 'b' => 'c', 'c' => 'd'}`. |
| ParserVectors.SomeDependenciesParsed | spec/lib/jobs_parser_spec.rb:80-94 | `'a => b\nb => \nc => d'` gives `{'a' => 'b', 'b' => '', 'c' => 'd'}`. |
| ParserVectors.RepeatedKeyParsed | lib/jobs_parser.rb:44-46 | A repeated key keeps its first place and takes the last value. |
| IntegrationVectors.RenderedSequenced | spec/lib/integration_spec.rb:6-94 | A rendered hash reaches the sequencer unchanged through the parser. |
| IntegrationVectors.EmptyText | spec/lib/integration_spec.rb:8-15 | `''` gives `''`. |
| IntegrationVectors.SingleText | spec/lib/integration_spec.rb:17-23 | `'a => '` gives `a`. |
| IntegrationVectors.ThreeTextSequenced | spec/lib/integration_spec.rb:25-31 | `'a => \nb => \nc => '` gives the three jobs, `abc`. |
| IntegrationVectors.AcbTextSequenced | spec/lib/integration_spec.rb:33-47 | `'a => \nb => c\nc => '` gives `acb`. |
| IntegrationVectors.SixTextSequenced | spec/lib/integration_spec.rb:49-75 | The literal text `'a => \nb => c\nc => f\nd => a\ne => b\nf => '` validates and gives `afcbde`. |
| IntegrationVectors.SelfTextSequenced | spec/lib/integration_spec.rb:77-84 | `'a => \nb => \nc => c'` fails with `SelfDependencyError`. |
| IntegrationVectors.CircularTextSequenced | spec/lib/integration_spec.rb:86-92 | The literal text `'a => \nb => c\nc => f\nd => a\ne => \nf => b'` validates and fails with `CircularReferenceError`. |

## Left out

- Non-string input to the parser other than `nil`, such as a number, is not modelled. Its input is `Option<string>`.
- The sequencer's `hash?` schema (lib/jobs_sequencer.rb:25-27) and non-hash input are not modelled. The sequencer takes a hash.
- Symbol keys (`{a: ''}`) and ids longer than one character are not modelled. The parser only ever produces one-character string ids.
- Error messages, the `dry-*` initializer and monad plumbing are not modelled. The errors are a datatype, and `Service.call` appears as the outcome datatypes.
- The stack overflow of an endless walk is not modelled as a Ruby exception. It is the outcome `Diverges`: the walk is bounded by one step per entry, and `CircularWalk.LoopsForever` shows that bound loses nothing.
- JobsSequencer.Sequenced: no general "every job after its dependency" theorem, because the code does not guarantee it (see `SequencerVectors.DependencyAfterJob`).

## Findings

| source | as written | input that shows it | evidently intended | confidence | as-written member | corrected member |
|---|---|---|---|---|---|---|
| lib/jobs_sequencer.rb:81-90 | The walk stops only on the job, its dependency, or a missing entry. A cycle further down recurses until the stack overflows, and that error is not permissible, so `call` raises. | `{'x' => 'a', 'a' => 'b', 'b' => 'c', 'c' => 'b'}` | Every circular reference ends in `Failure(CircularReferenceError)`. | not executed | CycleReport.EndlessIsCircular | CycleReport.ReportedReportsEveryCycle |
