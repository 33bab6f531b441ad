# Verified models of the end-to-end test tooling

This project models the parts of the VictoriaMetrics end-to-end test repository that hold real
algorithms or protocols, and proves their central properties. `dafny verify dfyconfig.toml`
checks everything.

Each file follows one component. Code that changes things step by step is a method with loops (and, where
it updates objects, a class); its postcondition equates the result with a function, and the lemmas
about that function are the properties. Concurrent protocols are state machines: a function `Apply` gives
the effect of one action, `Execute` that of any sequence of actions, and the theorems quantify over all sequences.

| file | what it models |
|---|---|
| `ProtoWire.dfy`, `Utf8.dfy`, `OtlpPayload.dfy` | the protobuf writer of the OTLP load script, with a reader written from the Protocol Buffers encoding specification ("Base 128 Varints", "Length-Delimited Records") and a UTF-8 reader written from section 4 of RFC 3629 |
| `AllureSteps.dfy`, `AllureOwnership.dfy`, `AllureForest.dfy` | the step builder of the Allure report, whose single pass is proved to be a pairing of By() starts with ends followed by handing out attachments, logs, parameters and the failure |
| `ShellQuote.dfy` | the reproduction command line, with a shell tokenizer written from sections 2.2.1, 2.2.2, 2.2.3 and 2.3 of POSIX.1-2017 XCU |
| `FailureDetails.dfy` | the parser for testify's failure text, with the layout it takes apart |
| `K6Waiter.dfy` | the Get / Watch / Get-again waiter for a k6 TestRun |
| `ConcurrentUpdates.dfy` | read-modify-write with retry on conflict: the VMCluster spec update and the VMAgent remoteWrite update |
| `K6Bundle.dfy` | retargeting the k6-operator bundle per namespace, applying it, uninstalling it |
| `MetricExport.dfy`, `ProbeWindow.dfy` | the chunked metric export with retries and early stop, the probe that chooses its range, and both together |
| `BenchPress.dfy` | the two timestamp re-alignments |
| `MergeSuites.dfy`, `MergeFolders.dfy` | the merge of per-suite result directories: on the files of each suite, and on the directory trees they are found in |
| `EnvMerge.dfy` | the merge of environment variables |
| `Common.dfy` | Option, joining, flattening and extremes, shared by the others |

## Where the code does less than its description

- `encodeVarint` is exact only on [0, 2^32), because `>>>` is a 32-bit operator. `ProtoWire.VarintReadsAs` says what a reader finds for every integer; `VarintRoundTrip`, `TagMeaning` and `LenDelimRead` give the exact conditions.
- `encodeString` encodes UTF-16 code units one by one, so a string with surrogates is not UTF-8; `Utf8.StringReads` shows that a reader that follows RFC 3629 rejects exactly those strings, while the code units stay recoverable.
- The comment at pkg/tests/allure/result.go:309 says that a step owns everything until the next sibling "or the parent ends"; in the code the window of the last child of a block never closes. No attachment is lost in any tree, and `AllureOwnership.ExactlyOnceIff` and `AllureForest.ForestExactlyOnceIff` say exactly when none is doubled: when at no depth two siblings both contain a step that started before it. Logs and parameters have no claims at all and are repeated more often (`AllureOwnership.RepeatedIff`).
- Starts and ends are paired by line number only. `AllureForest.PairsExactlyIff` gives the exact condition on the lines under which every start gets its own end, and `AllureForest.RebuildsExactlyIff` the weaker one under which names, start times, nesting and order come out right all the same.
- The chunked export stops at the first empty hour after data. It is the export of the whole range if and only if no sample follows such an hour (`ChunkedExport.ExportComplete`); a metric that pauses for an hour loses the rest (`ChunkedExport.SilentHourLoses`).
- The probe is sound for every data set exactly when the chosen step is at most five minutes (`ProbeWindow.ProbeSoundIff`); the code also uses larger steps for long ranges. All ranges are half-open, as the docstring of the probe has it, so a sample at the very end of the requested range is not part of it.
- The second Get of the TestRun waiter matters only when the watch was not told of the object; `K6Waiter.AnnouncedIff` gives the exact condition, and `K6Waiter.LostWithoutRecheck` a reachable wait in which a finished run is not announced because that Get failed.
- Rescoping ids in the suite merge joins suite and id with a colon. `MergeSuites.NothingLostIff` says exactly which suites lose results, `MergeSuites.NeverLosesIff` which directory names never do, and `MergeSuites.ResultLost` shows a loss. The verification after the merge cannot notice: `MergeSuites.VerifyNeverWarns` proves that it reports nothing for results named after their ids, since an overwritten file is no longer there to collide. The reporter's own ids hold no colon (`MergeSuites.NoResultLost`).
- Error text in which a continuation line starts with a section marker is not taken apart as it was put together (`FailureDetails.ExtractUndoesLayout`).

## Modelling decisions

- JavaScript numbers are integers, with the 32-bit reductions of `>>>` and `<<` written out; the clock is a parameter.
- Event times are nanoseconds since the epoch; other times are integer milliseconds. Float sample values are opaque.
- Ginkgo numbers timeline events in increasing order; the step builder's lemmas and methods require that, as the code's slice bounds do.
- In the API-server models a write may be committed although its answer is lost, requests may fail at any time, and other writers may bump the resource version. The number of attempts of the standard retry policy is a parameter.
- The answers of the metrics server are an arbitrary function of window and attempt number, so every pattern of failures is covered. Export windows are half-open.
- The export refinement speaks of servers that answer each window from one store of ordered samples; a series with only null samples in the exported stretch is there without values.
- Maps that the code ranges over are visited in an arbitrary order. JSON and YAML are modelled as parsed values, label sets as their own canonical keys, and the hash of the suite merge as any injective function.

## Model

| member | source | states |
|---|---|---|
| ProtoWire.EncodeVarint | manifests/load-tests/otlp-50vus-10mins.js:39-47 | the loop emits the byte groups of any integer, including those that `>>>` truncates |
| ProtoWire.VarintReadsAs | manifests/load-tests/otlp-50vus-10mins.js:39-47 | for every integer the bytes are self-delimiting, at most five, and mean the integer modulo 2^32 (the low seven bits if it is at most 127) |
| ProtoWire.VarintRoundTrip | manifests/load-tests/otlp-50vus-10mins.js:39-47 | a varint reads back as itself if and only if it lies in [0, 2^32) |
| ProtoWire.VarintMinimal | manifests/load-tests/otlp-50vus-10mins.js:39-47 | no byte string that a reader accepts as that value is shorter |
| ProtoWire.EncodeLenDelim | manifests/load-tests/otlp-50vus-10mins.js:50-58 | the filled buffer is tag, length and payload in this order |
| ProtoWire.TagMeaning | manifests/load-tests/otlp-50vus-10mins.js:51-62 | a key carries its field number if and only if the number lies in [0, 2^28) |
| ProtoWire.LenDelimRead | manifests/load-tests/otlp-50vus-10mins.js:50-58 | a record reads back whole, whatever follows it, if and only if its payload is shorter than 2^32 |
| ProtoWire.EncodeFixed64Field | manifests/load-tests/otlp-50vus-10mins.js:61-77 | the buffer is the tag and the eight bytes of the two 32-bit halves |
| ProtoWire.Fixed64LittleEndian | manifests/load-tests/otlp-50vus-10mins.js:64-75 | those bytes are the value modulo 2^64 in little-endian order, for every integer |
| ProtoWire.Fixed64FieldRead | manifests/load-tests/otlp-50vus-10mins.js:61-77 | a reader finds the field number and the value modulo 2^64, whatever follows |
| ProtoWire.Concat | manifests/load-tests/otlp-50vus-10mins.js:99-108 | the buffer is the concatenation of all arrays in order |
| Utf8.EncodeString | manifests/load-tests/otlp-50vus-10mins.js:80-96 | the loop emits the one-, two- or three-byte form of each code unit |
| Utf8.StringReads | manifests/load-tests/otlp-50vus-10mins.js:80-96 | every code-unit string reads back; under RFC 3629, which demands shortest forms, it reads back if and only if it holds no surrogate and is rejected otherwise |
| Utf8.StringBytesInjective | manifests/load-tests/otlp-50vus-10mins.js:80-96 | different strings never share their bytes |
| OtlpPayload.EncodeKeyValue | manifests/load-tests/otlp-50vus-10mins.js:111-114 | key and value are nested as fields 1 and 2 of a KeyValue |
| OtlpPayload.BuildOTLPPayload | manifests/load-tests/otlp-50vus-10mins.js:116-149 | the buffer holds the five nested message levels with all attributes in order |
| OtlpPayload.PayloadRoundTrip | manifests/load-tests/otlp-50vus-10mins.js:116-149 | for every name, attribute list, clock reading and value (outermost record below 2^32 bytes) a protobuf reader uses up all bytes and finds exactly the name, the attributes in order, both timestamps and the value |
| OtlpPayload.RequestRecordWhole | manifests/load-tests/otlp-50vus-10mins.js:50-58 | that bound is exact: a reader finds the only record of the request whole if and only if it is shorter than 2^32 bytes |
| OtlpPayload.StoredNumbersExact | manifests/load-tests/otlp-50vus-10mins.js:126-132 | the stored value is exact if and only if it fits a signed 64-bit number, a timestamp if and only if it fits an unsigned one |
| AllureSteps.FindByEventEnd | pkg/tests/allure/result.go:389-399 | the first end event on the start's line with a larger order, or none if there is none |
| AllureSteps.StretchLimitIs | pkg/tests/allure/result.go:310-316 | a window closes at the order of the first start from the search index on, or at the largest order if there is none |
| AllureSteps.ClaimAttachments | pkg/tests/allure/result.go:324-343 | claims exactly the unclaimed entries of the window, in order, and the latest time among them |
| AllureSteps.CollectValues | pkg/tests/allure/result.go:345-377 | the payloads in the window in order, and the latest time among them |
| AllureSteps.FinishStep | pkg/tests/allure/result.go:279-383 | name, status, start, stop, attachments, log file and parameters of one step from its window |
| AllureSteps.StopIsLatest | pkg/tests/allure/result.go:285-381 | a step that does not end before it starts stops at the latest time among its own events and everything it was handed |
| AllureSteps.StepTimes | pkg/tests/allure/result.go:285-381 | in milliseconds, start is the start event's time; the stop is that of the latest given time if any is after the start, else of the step's own end, also for an end before its start |
| AllureSteps.CreateSteps | pkg/tests/allure/result.go:267-387 | the recursive loop with its skipping terminates, and its single pass amounts to pairing all events first and then handing out |
| AllureSteps.HandOutShape | pkg/tests/allure/result.go:270-383 | names, start times and nesting of the steps come from the pairing alone, whatever is handed out |
| AllureSteps.PlainExtent | pkg/tests/allure/result.go:287-300 | in a report with nothing to hand out every step extends from its start to the end it is paired with |
| AllureSteps.EveryStartOnce | pkg/tests/allure/result.go:267-387 | for any events, the steps read parents first are exactly the starts in timeline order: none lost, repeated or moved |
| AllureSteps.ClaimedIsCarried | pkg/tests/allure/result.go:302-338 | in any tree the claimed entries are exactly those carried by some step |
| AllureSteps.ReportAttachments | pkg/tests/allure/result.go:127-146 | an attachment stays at result level if and only if no step of the tree carries it |
| AllureOwnership.ExactlyOnceIff | pkg/tests/allure/result.go:298-343 | for any increasing events: an attachment is in one place at least, and in exactly one if and only if at no depth two siblings both have a descendant whose window holds it |
| AllureOwnership.ParametersGiven | pkg/tests/allure/result.go:364-377 | in any tree a parameter value occurs once for each window that holds one of its entries |
| AllureOwnership.FailureMarks | pkg/tests/allure/result.go:318-322 | in any tree the failure marks exactly as many steps as have it in their windows |
| AllureOwnership.LogsByWindow | pkg/tests/allure/result.go:345-362 | in any tree each step's log file holds exactly the log lines of its own window, in order, and is missing if there are none |
| AllureOwnership.RepeatedIff | pkg/tests/allure/result.go:345-377 | a log or parameter is in one window at most if and only if no top-level step has a descendant that started before it; it is in one at least if any step started before it |
| AllureOwnership.FlatOwnership | pkg/tests/allure/result.go:309-377 | in a flat list the k-th step carries an attachment once, is marked failed, or is given logs and parameters if and only if it is the last one started before that order and nobody starts at it |
| AllureOwnership.FlatConservation | pkg/tests/allure/result.go:133-146 | in a flat list every attachment lands in exactly one place, and at result level if and only if no step owns its order |
| AllureOwnership.NestedDoubleClaim | pkg/tests/allure/result.go:298-316 | a concrete timeline that fails that condition: two blocks whose children both carry the same attachment |
| AllureForest.PairsExactlyIff | pkg/tests/allure/result.go:267-399 | for every forest of blocks and markers: each start is paired with the end of its own call, and each marker with none, if and only if no block has a descendant block on its line and no marker shares a line with a later end among its siblings |
| AllureForest.RebuildForest | pkg/tests/allure/result.go:267-399 | then, whatever is handed out, the timeline is parsed back into the same names, start times, nesting and sibling order |
| AllureForest.RebuildsExactlyIff | pkg/tests/allure/result.go:267-399 | for every forest, context and times: names, start times, nesting and order come back if and only if no marker shares a line with a later end among its siblings, and each block with a descendant block on its line ends early only at its last step, which has no steps inside |
| AllureForest.SharedLineMisplaces | pkg/tests/allure/result.go:389-399 | a concrete timeline: a child on its block's line ends the block early and a later child leaves it |
| AllureForest.SwappedEndsRebuild | pkg/tests/allure/result.go:389-399 | without that later child the ends are swapped, and the steps come out right |
| AllureForest.ForestExactlyOnceIff | pkg/tests/allure/result.go:298-343 | for every unambiguous forest: an attachment with an order of its own lands in exactly one place if and only if at no depth two sibling blocks both contain a step that started before it |
| ShellQuote.CommandLineFromArgs | pkg/tests/allure/result.go:244-250 | the loop joins the quoted arguments with spaces |
| ShellQuote.LeftBareIff | pkg/tests/allure/result.go:252-265 | an argument is left as it is if and only if it is not empty and holds only letters, digits and _@%+=:,./- |
| ShellQuote.ScanQuoted | pkg/tests/allure/result.go:252-265 | the shell scans a quoted argument as one word whose text is the argument, or rejects it if it holds a NUL |
| ShellQuote.CommandLineRoundTrip | pkg/tests/allure/result.go:244-265 | the shell reads the line back as exactly the arguments if and only if none holds a NUL |
| FailureDetails.ExtractFailureDetails | pkg/tests/allure/result.go:181-231 | the line loop computes the specified sections, title and context |
| FailureDetails.ExtractMeans | pkg/tests/allure/result.go:181-231 | for any text: the message joins the texts of exactly the lines whose nearest heading is Error:, or is the trimmed text if there are none, and ends with the first text under Messages:; the context joins all of those |
| FailureDetails.TrimSpaceMeans | pkg/tests/allure/result.go:187-195 | trimming takes away all Unicode white space at both ends and nothing else |
| FailureDetails.ExtractUndoesLayout | pkg/tests/allure/result.go:172-231 | for every failure laid out under the headings Error Trace:, Error:, Test: and Messages:, parsing gives the error lines joined, the first message line as suffix and the message lines as context if and only if no continuation line of errors or messages starts with such a heading |
| FailureDetails.PlainTextPassedOn | pkg/tests/allure/result.go:221-230 | text without any marker line is passed on trimmed, without context |
| K6Waiter.InvStep | pkg/install/k6.go:453-529 | every step of waiter, watch and TestRun keeps the invariant |
| K6Waiter.GetDecides | pkg/install/k6.go:454-466 | a Get, in each of its three places, reports success exactly for "finished" and a failed stage exactly for "error"; after any other answer the waiter goes on, or times out after the last Get |
| K6Waiter.ReceiveDecides | pkg/install/k6.go:513-527 | an Added or Modified event with one of these stages is reported, every other event is dropped |
| K6Waiter.NeverStuck | pkg/install/k6.go:484-512 | in every reachable state: a started watch leads to a Get, a closed one is restarted when its queue is empty, and the deadline leads to the last Get |
| K6Waiter.RecheckedIsThatGet | pkg/install/k6.go:483-512 | in every reachable blocked state there was exactly one Get since the last Watch, restarts included, and it is the one that `rechecked` speaks of |
| K6Waiter.NoLostTerminalStage | pkg/install/k6.go:471-529 | in every reachable blocked state where the only Get since the last Watch succeeded: a TestRun that is "finished" or "error" implies a queued event that says so or a closed watch |
| K6Waiter.OutcomesSound | pkg/install/k6.go:454-550 | over every run: success only if the TestRun had the stage "finished", stage failure only if it had "error", timeout only past the deadline after a final Get that failed or read neither |
| K6Waiter.OutcomeAgrees | pkg/install/k6.go:435-440 | if terminal stages are final, the reported outcome is the stage the TestRun has from then on |
| K6Waiter.BoundedReport | pkg/install/k6.go:488-528 | a blocked waiter on an open watch that was rechecked or told reports "finished" or "error" after at most the events already queued |
| K6Waiter.AnnouncedIff | pkg/install/k6.go:471-529 | in every reachable blocked state with an open watch and a TestRun that is "finished" or "error": an event that says so is queued if and only if an event of the object entered this watch, by a change or by the replay at its start; a successful Get after the Watch implies that |
| K6Waiter.LostWithoutRecheck | pkg/install/k6.go:483-486 | a concrete run in which that Get fails and the finished stage stays unannounced |
| VmClusterUpdate.CommitsFold | pkg/install/vmcluster.go:339-358 | over every interleaving: the spec is the committed mutations folded in commit order; a successful caller committed exactly once, one that gave up or aborted never, nobody twice |
| VmClusterUpdate.GivingUpIsEarned | pkg/install/vmcluster.go:343-354 | a caller gives up only after at least as many foreign writes as it had attempts, and committed nothing |
| VmClusterUpdate.FewCallersNeverGiveUp | pkg/install/vmcluster.go:312-318 | with no other writer and no more callers than attempts, nobody gives up |
| VmClusterUpdate.EndingMeans | pkg/install/vmcluster.go:335-358 | over every interleaving: a caller gave up if and only if all its attempts met conflicts, returned silently if and only if it noticed its cancelled context, failed if and only if a request of it failed or its committed write was not answered, and succeeded if and only if its committed write was |
| VmClusterUpdate.Alone | pkg/install/vmcluster.go:339-354 | a caller that runs on alone comes to an end: with its mutation of the stored spec committed, unless it is cancelled or its last write is too late; nobody else is touched |
| ApiServer.Server.Update | pkg/install/vmcluster.go:352-353 | a write succeeds if and only if it names the current version, and then bumps it; otherwise nothing changes |
| VmClusterCaller.UpdateVMClusterSpec | pkg/install/vmcluster.go:335-358 | for every cancellation, failed request, lost or refused write and foreign commit: all attempts but the last met the commits of others, the outcome is told from what happened to the last one, and the spec is all foreign commits with the mutation on top once exactly if the last write arrived undisturbed |
| VmAgentUpdate.RemoteWriteList | pkg/install/vmagent.go:195-241 | over every interleaving: the list is the initial one followed by the committed URLs, stays duplicate-free, and holds the URL of every caller that returned without error |
| VmAgentUpdate.ReturnedIsPermanent | pkg/install/vmagent.go:182-185 | that URL stays in the list whatever happens later |
| VmAgentUpdate.MutualExclusion | pkg/install/vmagent.go:175-197 | at most one caller of a process is inside |
| VmAgentUpdate.ConflictsBounded | pkg/install/vmagent.go:175-235 | over every interleaving: a caller has at most as many conflicts as there are callers in other processes, besides foreign writes that leave the list alone |
| VmAgentUpdate.OneProcessNeverConflicts | pkg/install/vmagent.go:175-197 | within one process and without other writers no update ever conflicts |
| VmAgentUpdate.ErrorMeans | pkg/install/vmagent.go:195-241 | over every interleaving: a caller fails if and only if each of its attempts met a conflict, one of its requests or its wait failed, there was no list, or its committed write was not answered |
| VmAgentUpdate.Alone | pkg/install/vmagent.go:195-241 | a caller that can run on alone is done after at most six actions: its URL is in the list, appended once if it was missing, unless there is no list or its last write is too late; the mutex is free, nobody else is touched |
| VmAgentUpdate.NeverStuck | pkg/install/vmagent.go:175-197 | no deadlock: as long as a caller is not done, it or the holder of its mutex can run on to its end |
| VmAgentCaller.EnsureVMAgentRemoteWriteURL | pkg/install/vmagent.go:195-241 | for every failed read, lost or refused write and foreign append: the first read or else the last attempt decides the outcome, all attempts before met the appends of others; the list is exactly what was there and what others appended, followed once by the URL exactly if it was missing and the last write arrived undisturbed; success means it is in the list |
| K6Bundle.RetargetK6Bundle | pkg/install/k6.go:137-180 | the document loop retargets every object, skips blank documents and stops at the first error |
| K6Bundle.BundleFrame | pkg/install/k6.go:137-219 | the retargeted bundle has one document per object, in the same order, which keeps its kind, its name unless it is a ClusterRoleBinding, its accounts, containers and variables, and everything no step looks at |
| K6Bundle.BundleFailsIff | pkg/install/k6.go:137-219 | retargeting fails if and only if some document is not YAML or some Deployment has no list of containers |
| K6Bundle.Unstructured.RetargetSubjectsNamespace | pkg/install/k6.go:185-196 | the same accounts in the same order, each in the given namespace; a subject that is no map stays as it is |
| K6Bundle.Unstructured.InjectWatchNamespaceEnv | pkg/install/k6.go:200-219 | fails if and only if there is no list of containers; else the same containers, where exactly those named manager get one more variable behind their own |
| K6Bundle.InstalledIsScoped | pkg/install/k6.go:59-73 | objects of an install live in its namespace, its bindings name accounts there, and its managers see WATCH_NAMESPACE set to it, whatever the bundle said |
| K6Bundle.NamesCollide | pkg/install/k6.go:127-129 | two base names can meet for some namespaces if and only if one extends the other by "-" |
| K6Bundle.WriteSetsOverlap | pkg/install/k6.go:59-73 | the write sets of any two installs overlap only in identical objects, and for different namespaces only in shared ones |
| K6Bundle.InstallsCommute | pkg/install/k6.go:59-73 | for any number of namespaces, every order of the object applies, repetitions included, gives the same cluster |
| K6Bundle.CommuteIff | pkg/install/k6.go:127-129 | for a bundle of distinct objects whose bindings differ in their roles: all interleavings of installs agree if and only if no binding's base name extends another's by "-"; otherwise already two whole installs one after the other depend on their order |
| K6Bundle.UninstallLeavesOthers | pkg/install/k6.go:114-125 | uninstalling one namespace leaves every object of another install |
| K6Bundle.UninstallUndoesInstall | pkg/install/k6.go:114-125 | uninstall and namespace deletion leave only the shared objects of an install |
| ExportRows.MergeExportRows | scripts/extract_vm_e2e_metrics.py:141-161 | the loop groups rows by series in order of first appearance, and fails on lists of different lengths |
| ExportRows.MergeConcat | scripts/extract_vm_e2e_metrics.py:141-161 | merging is a homomorphism: merging two lists of rows is merging each and extending the first result by the second, order of series included |
| ExportRows.MergeHolds | scripts/extract_vm_e2e_metrics.py:141-161 | a series is there if and only if a row names it, and holds exactly the non-null samples of its rows in order |
| ExportRows.MergeFailsIff | scripts/extract_vm_e2e_metrics.py:149-150 | merging fails if and only if some row has timestamps and values in different numbers |
| ExportRows.MergeLists | scripts/extract_vm_e2e_metrics.py:141-161 | sample by sample: the lists of a series are the times, scaled to thousandths, and values of exactly the non-null samples of its rows, row by row in order |
| ExportRows.MergeOrder | scripts/extract_vm_e2e_metrics.py:144-145 | the series come in the order in which they are first named |
| ChunkedExport.FetchChunk | scripts/extract_vm_e2e_metrics.py:230-239 | the merged rows of the first attempt that answers with rows that can be merged; none if and only if all of the retries + 1 attempts fail, each of which was made |
| ChunkedExport.ExportFailsIff | scripts/extract_vm_e2e_metrics.py:224-252 | the whole export fails if and only if for some hour that the loop gets to all attempts fail |
| ChunkedExport.ExtractCluster | scripts/extract_vm_e2e_metrics.py:222-253 | the chunk loop terminates with the specified series and at most retries + 1 requests per hour |
| ChunkedExport.ExportIsOneMerge | scripts/extract_vm_e2e_metrics.py:224-252 | the chunked export is one merge of the rows of one successful attempt per chunk |
| ChunkedExport.ExportRefinesStore | scripts/extract_vm_e2e_metrics.py:222-253 | for every store: exactly the non-null samples from the start to the stop point, by series in order, however many attempts it took |
| ChunkedExport.NoGapBeforeStop | scripts/extract_vm_e2e_metrics.py:240-246 | before the stop point an empty hour only occurs before any data |
| ChunkedExport.ExportComplete | scripts/extract_vm_e2e_metrics.py:222-253 | for every store: the collected rows hold every sample of the range if and only if no sample follows an empty hour that follows an hour with samples; then the export is that of one request for the whole range, and for stores without nulls only then |
| ChunkedExport.OneSeriesServed | scripts/extract_vm_e2e_metrics.py:222-253 | for every store of one series there is a client that serves it and from which every export completes |
| ChunkedExport.SilentHourLoses | scripts/extract_vm_e2e_metrics.py:240-246 | a concrete store of one series with one silent hour: whatever a client answers from it, the sample after the hour is not exported |
| ProbeWindow.StepIsSmallest | scripts/extract_vm_e2e_metrics.py:179-186 | the step is the smallest whole number of minutes that keeps the minute count within the limit |
| ProbeWindow.StepInSeconds | scripts/extract_vm_e2e_metrics.py:179-186 | in seconds: m minutes are enough if and only if the whole seconds of the range are at most 60 m times the limit |
| ProbeWindow.PointsBounded | scripts/extract_vm_e2e_metrics.py:179-186 | a probe query has at most one point more than the limit |
| ProbeWindow.BoundsAreTight | scripts/extract_vm_e2e_metrics.py:200-208 | the bounds are the first and last grid points with data, none if there are none |
| ProbeWindow.BoundsMean | scripts/extract_vm_e2e_metrics.py:200-208 | on the samples: the bounds are the first and last instants of the grid in the range that have a sample within one step before them |
| ProbeWindow.ExportedMeans | scripts/extract_vm_e2e_metrics.py:217-220 | exported are exactly the times of the half-open range from five minutes before the first bound to before five minutes after the last |
| ProbeWindow.NothingOutside | scripts/extract_vm_e2e_metrics.py:211-252 | from probe to series: every timestamp of every exported series is that of a non-null stored sample in the half-open range and within five minutes of the bounds |
| ProbeWindow.CoveredIsExported | scripts/extract_vm_e2e_metrics.py:189-220 | with a step of at most five minutes every sample of the half-open range that a grid point follows lies in the half-open buffered range |
| ProbeWindow.ProbeSoundIff | scripts/extract_vm_e2e_metrics.py:179-220 | that holds for all data sets if and only if the chosen step is at most five minutes, or exceeds the range, which needs a limit of one point |
| ProbeWindow.CoveredIsExtracted | scripts/extract_vm_e2e_metrics.py:211-252 | from probe to series: with such a step and no gap in the probed range, every non-null sample that a grid point follows ends up in its exported series |
| BenchPress.AlignSequential | scripts/bench_press.py:70-113 | the loops place every run at start_ms minus the total span plus the durations before it |
| BenchPress.SequentialEnds | scripts/bench_press.py:97-113 | each run keeps its entries, values and gaps and covers exactly its own stretch |
| BenchPress.SequentialTiles | scripts/bench_press.py:70-81 | the last instant of a run is the first of the next run with timestamps |
| BenchPress.SequentialExtent | scripts/bench_press.py:70-81 | the first run starts the summed durations before start_ms, the last ends exactly there |
| BenchPress.SequentialOnTimestamps | scripts/bench_press.py:70-113 | on the timestamps of the entries: all of a run land in its own stretch, which lies before start_ms by the spans of the later runs, and reach both its ends |
| BenchPress.AlignParallel | scripts/bench_press.py:23-67 | the loops place every run at start_ms minus the longest duration, and pass runs without timestamps on unchanged |
| BenchPress.ParallelAligns | scripts/bench_press.py:23-32 | every run starts at the common start and keeps its entries, values and gaps; none ends after start_ms, one exactly there |
| BenchPress.ParallelOnTimestamps | scripts/bench_press.py:23-67 | on the timestamps of the entries: all land between the longest span before start_ms and start_ms, every run with timestamps reaches the beginning, and some run start_ms |
| BenchPress.InputClocksIrrelevant | scripts/bench_press.py:23-113 | shifting each input run by a constant of its own changes neither output |
| MergeSuites.InjectParentSuite | scripts/merge_suites.py:43-71 | one file is written under the rescoped name with rescoped ids and a single parentSuite label |
| MergeSuites.MergeSuite | scripts/merge_suites.py:87-113 | the source directory is found behind double nesting and allure-results; its files are merged, its subdirectories except the history copied, its result files counted |
| MergeSuites.Merge | scripts/merge_suites.py:74-119 | all suites go into one directory, over what an earlier merge left there, with the total count |
| MergeSuites.MergeTwice | scripts/merge_suites.py:83-111 | merging the same suites once more into the same directory changes nothing |
| MergeSuites.NothingLostIff | scripts/merge_suites.py:56-71 | for an injective hash, results named after their ids and any existing directory: besides what is not overwritten there, as many merged results as source results if and only if no two results of different suites have the same suite title, colon and id |
| MergeSuites.NeverLosesIff | scripts/merge_suites.py:101-106 | directory names lose nothing, whatever the ids are and whatever was merged before, if and only if none equals another or begins it when followed by a colon |
| MergeSuites.ResultLost | scripts/merge_suites.py:56-71 | two concrete suites of one result each are merged into one file, and the verification after the merge reports nothing |
| MergeSuites.VerifyNeverWarns | scripts/merge_suites.py:122-153 | for results named after their ids, those of earlier merges included, no id is ever shared between suites after the merge, results lost or not, whatever the hash is; and the merged results are named after their ids again |
| MergeSuites.VerifyMerge | scripts/merge_suites.py:122-153 | for every file order the reported ids are exactly those shared by results of different suites |
| MergeSuites.NoResultLost | scripts/merge_suites.py:43-153 | for directories written by the reporter, an injective hash and any existing directory: the leftovers stay, besides them there are as many merged results as source results, each surviving, and no collision |
| MergeSuites.EveryResultMerged | pkg/tests/allure/result.go:488-498 | each result the reporter wrote is found in the merged directory, rescoped and labelled |
| MergeFolders.SourceIs | scripts/merge_suites.py:90-96 | for each of the four layouts the source is the innermost directory: behind a directory of the suite's name and then allure-results, as far as these exist |
| MergeFolders.ResultWrite | scripts/merge_suites.py:43-71 | a merged result field by field: both ids hashed with the suite's title, missing ones still missing, all labels but parentSuite in order and one parentSuite at the end, everything else unchanged; its file is named after the new id |
| MergeFolders.FolderResultMerged | scripts/merge_suites.py:87-106 | on directory trees, for suites of any of these layouts written by the reporter, an injective hash and any existing directory: every result file of the innermost directory is in the merged directory under its new id with these fields |
| MergeFolders.FolderFileMerged | scripts/merge_suites.py:107-110 | in the same setting, every other file of the innermost directory is there under its own name |
| MergeFolders.FolderTotal | scripts/merge_suites.py:98-112 | the reported total is the number of result files in the innermost directories |
| MergeFolders.FoldersMerged | scripts/merge_suites.py:107-108 | every file below a subdirectory other than the history is found under its path |
| MergeFolders.FoldersFromSuites | scripts/merge_suites.py:107-108 | whatever is found in a subdirectory was there before or is the file of some suite at that path |
| MergeFolders.OwnsMeans | scripts/merge_suites.py:129-139 | a file counts for an id and a suite by its name, its id and its first parentSuite label |
| EnvMerge.MergeEnvVars | pkg/helpers/kubernetes.go:88-104 | for every map order: positions and names of base kept, first occurrences overridden, new names appended once |
| EnvMerge.MergeReadsBack | pkg/install/k6.go:352-359 | reading a name back gives the override where there is one and otherwise what base gave, duplicates included |
| EnvMerge.MergeLength | pkg/helpers/kubernetes.go:99-101 | the length grows by exactly the number of new names |

## Left out

- Helm, kubectl, client-go, Ginkgo, HTTP, TLS, file reads, sleeps and the wall clock: external effects, replaced by parameters and the abstract server, watch and store models.
- The suites under tests/, pkg/consts, pkg/exporter, pkg/gather, manifest and URL string builders, PromQL texts: constants, formatting and orchestration.
- JSON and YAML syntax, MD5, SHA-1 and UUID generation: parsed values and an injective hash stand for them; a panic on a malformed attachment or parameter entry is not modelled.
- MergeSuites.Merge: the choice of the suite directories, an exit without any, and the failure when a file and a directory share a name are not modelled.
- OtlpPayload.PayloadRoundTrip: what a reader makes of a request with a record of 2^32 bytes or more is described record by record (`ProtoWire.LenDelimReadsAs`), not for the request as a whole.
- ShellQuote.CommandLineRoundTrip: covers splitting into words and quote removal; whether the shell takes a first word with "=" for an assignment belongs to its grammar, not to its tokenizer.
- Aliasing of the slice passed to MergeEnvVars after an append that reallocates: the model grows the caller's list itself.
- The remaining k6 scripts, certificate generation, shell scripts and the Dockerfile: no property to decide.
