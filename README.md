# Class enrollment with replicated class servers: a verified model

This project models the core of a distributed enrollment service for a
single class ("Turmas").

- **Class servers.** Each class server keeps a `ClassDomain` roster:
  - the capacity and whether enrollments are open;
  - whether the server is active;
  - a counter of enrolled students;
  - the map of enrolled students and the map of discarded students.
- **Services on a class server.** Each server answers three gRPC services:
  - the professor service opens and closes enrollments and cancels a student;
  - the student service enrolls a student;
  - the admin service activates and deactivates the server, dumps its state, switches gossip and forces a gossip round.
  - Every handler is modelled with its order of checks: the deadline, inactivity, `WRITING_NOT_SUPPORTED` on a secondary, argument validation (`Validate`), and the domain's own exceptions.
- **Write log.** Every write accepted on a replica is logged as a string, keyed by a Lamport clock:
  - `open:<capacity>` for opening;
  - `close:0` for closing;
  - `<id>:<name>` for an enrollment.
- **Gossip.** A replica sends its state and its log to the other replica, with up to three tries.
- **Merge.** The receiver merges the two (`unifyState`):
  - a peer "open" write makes it adopt the peer's state outright;
  - otherwise it joins the two logs position by position, the primary's write first; from the position where either side's close appears, the join goes on taking one write per position, the peer's when the receiver closed and its own otherwise;
  - when the remaining capacity covers every peer write, it enrolls the peer's writes directly, refusing only students already enrolled, and closes enrollments when the join met the peer's close and none of its own;
  - otherwise it re-enrolls the joined writes, refusing a write when the class is full or when its student is enrolled and the write is not in its own log.
  - The receiver then records every refused enrollment as discarded, clears its own log and answers with its state; the sender adopts that state and clears its log.
- **Clients.** The professor and student clients choose a class server:
  - a fresh primary first, then a fresh secondary, then the least-used untried server;
  - they try each server up to three times before switching.
- **Naming server.** It keeps, per service name, the list of registered servers with their qualifiers. It answers `register`, `delete` and `lookup`, where lookup filters by qualifiers.

## How the model is organised

The state that the Java code updates in place lives in classes with those fields:

- `Domain.ClassDomain`;
- `Gossip.ReplicaFrontend`;
- `ClientRouting.ClassServerFrontend`;
- `Naming.ServerEntry`, `Naming.ServiceEntry`, `Naming.NamingServices`;
- the service implementations.

Their methods are proved against pure functions on values, in these modules:

- `DomainSpec`: the roster transitions;
- `Merge`: the merge, as left folds over loop prefixes;
- `Gossip`: the round;
- `HandlerSpec`: the handlers;
- `ClientRouting`: the choice of server and the retry loop.

The properties are stated about those functions. Each loop of the class-server merge, of the gossip frontend, of the client frontends and of the roster listings is a `while` loop in a method, with the fold as its invariant. The validators' loops (the digit check in `Validate`, the per-student check of a class state) and the naming server's collection operations (`removeIf`, `allMatch`, the lookup's stream `filter`) are rendered as functions and quantifiers: `Validate.AllDigits`, `Protocol.ValidateStudents`, `Naming.Without`, the qualifier check in `Naming.NamingServices.Register` and `Naming.Matching`.

How Java behaviour is modelled:

- **Exceptions.** A Java runtime exception that escapes a handler is an explicit outcome. This covers a missing `split(":")` field, `substring(0, 5)` on a short id, and a null service. gRPC reports such an exception as `UNKNOWN`. Whatever was changed before it is kept.
- **`split(":")`.** It is modelled with Java's rule that trailing empty pieces are dropped.
- **Outside inputs.** A passed deadline, the peer's answers and the calls' outcomes are parameters.

## Model

| member | source | states |
|---|---|---|
| Validate.ValidateId | Utilities/src/main/java/pt/ulisboa/tecnico/classes/Validate.java:35-49 | an id shorter than five characters makes `substring` throw, whatever else it holds; otherwise the id is accepted or refused |
| Validate.ValidateName | Utilities/src/main/java/pt/ulisboa/tecnico/classes/Validate.java:56-65 | a name is accepted exactly when it has 3 to 30 characters, and never throws an index error |
| Validate.ValidateEnrollment | Utilities/src/main/java/pt/ulisboa/tecnico/classes/Validate.java:14-28 | an index error exactly for an id under five characters, whatever the name; acceptance exactly when the id and the name are each accepted |
| Validate.AcceptedIdShape | Utilities/src/main/java/pt/ulisboa/tecnico/classes/Validate.java:35-49 | the accepted ids are exactly "aluno" followed by four decimal digits |
| Validate.AcceptedIdHasNoColon | Utilities/src/main/java/pt/ulisboa/tecnico/classes/Validate.java:35-49 | an accepted id contains no ':' and so survives the "id:name" write format |
| JavaStrings.StripTrailingEmptyKeepsPrefix | ClassServer/src/main/java/pt/ulisboa/tecnico/classes/classserver/ClassServerServiceImpl.java:289-290 | `split` with no limit keeps a prefix of the pieces, drops only empty pieces, and what it keeps does not end in an empty one |
| JavaStrings.SplitPair | ClassServer/src/main/java/pt/ulisboa/tecnico/classes/classserver/ClassServerServiceImpl.java:289-290 | a write `a:b` with colon-free parts and non-empty `b` splits back into exactly `a` and `b`, so fields 0 and 1 exist |
| JavaStrings.SplitTriple | ClassServer/src/main/java/pt/ulisboa/tecnico/classes/classserver/ClassServerServiceImpl.java:289-290 | three colon-free parts joined by ':' split back into the three, so field 1 is the middle part |
| JavaStrings.DecimalString | ClassServer/src/main/java/pt/ulisboa/tecnico/classes/classserver/ProfessorServiceImpl.java:87 | `String.valueOf` of a non-negative capacity is a non-empty string of decimal digits |
| JavaStrings.DecimalStringHasNoColon | ClassServer/src/main/java/pt/ulisboa/tecnico/classes/classserver/ProfessorServiceImpl.java:87 | the capacity's digits hold no ':', so "open:<capacity>" has exactly two fields |
| Protocol.ToMap | ClassServer/src/main/java/pt/ulisboa/tecnico/classes/classserver/ClassServerServiceImpl.java:136-155 | the map filled by `put` over a student list has exactly the listed ids as keys |
| Protocol.ToMapOfDistinct | ClassServer/src/main/java/pt/ulisboa/tecnico/classes/classserver/ClassServerServiceImpl.java:136-155 | for a list without repeated ids the map has one entry per student, holding that student's name |
| Protocol.ValidateStudents | ClassServer/src/main/java/pt/ulisboa/tecnico/classes/classserver/ClassServerServiceImpl.java:367-375 | accepts a student list exactly when every student passes `validate_enrollment`, and never reports a capacity error |
| Protocol.ValidateClassState | ClassServer/src/main/java/pt/ulisboa/tecnico/classes/classserver/ClassServerServiceImpl.java:367-375 | accepts a class state exactly when the capacity is valid and every discarded and every enrolled student is valid; reports the capacity exactly when it is negative |
| DomainSpec.AddStudentEnrolled | ClassServer/src/main/java/pt/ulisboa/tecnico/classes/classserver/ClassDomain.java:114-136 | fails closed, then duplicate, then full (counter equal to capacity), each iff its guard is the first to fail, leaving the roster unchanged; on success adds the entry, drops the id from the discarded map, bumps the counter and changes nothing else |
| DomainSpec.RemoveStudentEnrolled | ClassServer/src/main/java/pt/ulisboa/tecnico/classes/classserver/ClassDomain.java:144-152 | fails iff the id is not enrolled; otherwise the counter drops, but the entry goes only when the stored name equals the name given |
| DomainSpec.AddStudentDiscarded | ClassServer/src/main/java/pt/ulisboa/tecnico/classes/classserver/ClassDomain.java:161-164 | fails iff the id is not enrolled, changing nothing; otherwise the discarded map gains id -> name, the counter falls by one, the enrolled entry goes only when its name matches, and no other field changes |
| DomainSpec.AddStudentDiscardedKeepsConsistent | ClassServer/src/main/java/pt/ulisboa/tecnico/classes/classserver/ClassDomain.java:161-164 | discarding a student under the name it was enrolled with keeps the counter equal to the enrolled map's size and the two maps disjoint |
| DomainSpec.AddNewDiscarded | ClassServer/src/main/java/pt/ulisboa/tecnico/classes/classserver/ClassDomain.java:166-171 | fails iff the id is already discarded; otherwise only the discarded map gains the entry |
| DomainSpec.RemoveStudentDiscarded | ClassServer/src/main/java/pt/ulisboa/tecnico/classes/classserver/ClassDomain.java:179-185 | fails iff the id is not discarded; otherwise only that key leaves the discarded map |
| DomainSpec.OpenEnrollments | ClassServer/src/main/java/pt/ulisboa/tecnico/classes/classserver/ClassDomain.java:187-199 | fails inactive, then already open, then a capacity not above the enrolled map's size, each iff it is the first guard to fail; success sets only the capacity and the open flag |
| DomainSpec.CloseEnrollments | ClassServer/src/main/java/pt/ulisboa/tecnico/classes/classserver/ClassDomain.java:201-209 | fails inactive, then already closed, each iff first; success clears only the open flag |
| DomainSpec.CancelEnrollment | ClassServer/src/main/java/pt/ulisboa/tecnico/classes/classserver/ClassDomain.java:217-223 | fails inactive, then not enrolled, each iff first, leaving the roster unchanged |
| DomainSpec.CancelMovesEntry | ClassServer/src/main/java/pt/ulisboa/tecnico/classes/classserver/ClassDomain.java:217-223 | a cancellation on an active replica of an enrolled id moves that very entry from the enrolled map to the discarded map, lowers the counter, and changes nothing else |
| DomainSpec.AddStudentEnrolledKeepsConsistent | ClassServer/src/main/java/pt/ulisboa/tecnico/classes/classserver/ClassDomain.java:114-136 | enrolling keeps the counter equal to the enrolled map's size and the two maps disjoint |
| DomainSpec.CancelEnrollmentKeepsConsistent | ClassServer/src/main/java/pt/ulisboa/tecnico/classes/classserver/ClassDomain.java:217-223 | cancelling keeps the counter equal to the enrolled map's size and the two maps disjoint |
| DomainSpec.AddStudentEnrolledRespectsCapacity | ClassServer/src/main/java/pt/ulisboa/tecnico/classes/classserver/ClassDomain.java:114-136 | a counter within the capacity stays within it after an enrollment |
| DomainSpec.OverfullClassStillAdmits | ClassServer/src/main/java/pt/ulisboa/tecnico/classes/classserver/ClassDomain.java:114-136 | the fullness test is an equality, so a counter already above the capacity lets a new student in and rises further |
| DomainSpec.AddNewDiscardedCanOverlap | ClassServer/src/main/java/pt/ulisboa/tecnico/classes/classserver/ClassDomain.java:166-171 | `addNewDiscarded` can mark a still-enrolled student as discarded, breaking disjointness |
| DomainSpec.RemoveWithOtherNameBreaksCounter | ClassServer/src/main/java/pt/ulisboa/tecnico/classes/classserver/ClassDomain.java:144-152 | removing with a mismatching name lowers the counter but keeps the entry, so counter and map size drift apart |
| Domain.ClassDomain.constructor | ClassServer/src/main/java/pt/ulisboa/tecnico/classes/classserver/ClassDomain.java:12-28 | a new roster is closed, active, with capacity and counter 0 and both maps empty |
| Domain.ClassDomain.SetEnrolled | ClassServer/src/main/java/pt/ulisboa/tecnico/classes/classserver/ClassDomain.java:52-54 | only the counter changes |
| Domain.ClassDomain.SetCapacity | ClassServer/src/main/java/pt/ulisboa/tecnico/classes/classserver/ClassDomain.java:67-69 | only the capacity changes |
| Domain.ClassDomain.SetOpen | ClassServer/src/main/java/pt/ulisboa/tecnico/classes/classserver/ClassDomain.java:82-84 | only the open flag changes |
| Domain.ClassDomain.SetActive | ClassServer/src/main/java/pt/ulisboa/tecnico/classes/classserver/ClassDomain.java:90-92 | only the active flag changes |
| Domain.ClassDomain.SetStudentsEnrolled | ClassServer/src/main/java/pt/ulisboa/tecnico/classes/classserver/ClassDomain.java:101-103 | only the enrolled map changes |
| Domain.ClassDomain.SetStudentsDiscarded | ClassServer/src/main/java/pt/ulisboa/tecnico/classes/classserver/ClassDomain.java:110-112 | only the discarded map changes |
| Domain.ClassDomain.Activate | ClassServer/src/main/java/pt/ulisboa/tecnico/classes/classserver/ClassDomain.java:225-227 | only the active flag is raised |
| Domain.ClassDomain.Deactivate | ClassServer/src/main/java/pt/ulisboa/tecnico/classes/classserver/ClassDomain.java:229-231 | only the active flag is lowered |
| Domain.ClassDomain.AddStudentEnrolled | ClassServer/src/main/java/pt/ulisboa/tecnico/classes/classserver/ClassDomain.java:114-136 | the fields and the outcome are those of `DomainSpec.AddStudentEnrolled` on the old fields |
| Domain.ClassDomain.RemoveStudentEnrolled | ClassServer/src/main/java/pt/ulisboa/tecnico/classes/classserver/ClassDomain.java:144-152 | the fields and the outcome are those of `DomainSpec.RemoveStudentEnrolled` |
| Domain.ClassDomain.AddStudentDiscarded | ClassServer/src/main/java/pt/ulisboa/tecnico/classes/classserver/ClassDomain.java:161-164 | the fields and the outcome are those of `DomainSpec.AddStudentDiscarded` |
| Domain.ClassDomain.AddNewDiscarded | ClassServer/src/main/java/pt/ulisboa/tecnico/classes/classserver/ClassDomain.java:166-171 | the fields and the outcome are those of `DomainSpec.AddNewDiscarded` |
| Domain.ClassDomain.RemoveStudentDiscarded | ClassServer/src/main/java/pt/ulisboa/tecnico/classes/classserver/ClassDomain.java:179-185 | the fields and the outcome are those of `DomainSpec.RemoveStudentDiscarded`; the name argument is ignored |
| Domain.ClassDomain.OpenEnrollments | ClassServer/src/main/java/pt/ulisboa/tecnico/classes/classserver/ClassDomain.java:187-199 | the fields and the outcome are those of `DomainSpec.OpenEnrollments` |
| Domain.ClassDomain.CloseEnrollments | ClassServer/src/main/java/pt/ulisboa/tecnico/classes/classserver/ClassDomain.java:201-209 | the fields and the outcome are those of `DomainSpec.CloseEnrollments` |
| Domain.ClassDomain.CancelEnrollment | ClassServer/src/main/java/pt/ulisboa/tecnico/classes/classserver/ClassDomain.java:217-223 | the fields and the outcome are those of `DomainSpec.CancelEnrollment` |
| Domain.ListStudents | ClassServer/src/main/java/pt/ulisboa/tecnico/classes/classserver/ClassServerServiceImpl.java:388-396 | the student list holds every map entry exactly once (no repeated id, one student per entry, and `put` over it rebuilds the map) |
| Domain.BuildClassState | ClassServer/src/main/java/pt/ulisboa/tecnico/classes/classserver/ClassServerServiceImpl.java:382-400 | the message carries the roster's capacity and open flag and lists both maps entry for entry |
| Merge.Lookup | ClassServer/src/main/java/pt/ulisboa/tecnico/classes/classserver/ClassServerServiceImpl.java:207 | `get` yields a value exactly for a key present in the log, and that key's value |
| Merge.MinClock | ClassServer/src/main/java/pt/ulisboa/tecnico/classes/classserver/ClassServerServiceImpl.java:331-341 | a request without writes gives -1 |
| Merge.MinClockIsLeast | ClassServer/src/main/java/pt/ulisboa/tecnico/classes/classserver/ClassServerServiceImpl.java:331-341 | with non-negative clocks the result is -1 exactly for no writes, and otherwise a clock present in the request and no greater than any |
| Merge.WriteAtIsFirstMatch | ClassServer/src/main/java/pt/ulisboa/tecnico/classes/classserver/ClassServerServiceImpl.java:350-360 | the write of the first entry with the clock asked for, and "" when no entry has it |
| Merge.ScanOpen | ClassServer/src/main/java/pt/ulisboa/tecnico/classes/classserver/ClassServerServiceImpl.java:193-198 | reports no open exactly when every peer write has a tag and none is "open"; when it reports one, some write is tagged "open" |
| Merge.JoinStep | ClassServer/src/main/java/pt/ulisboa/tecnico/classes/classserver/ClassServerServiceImpl.java:206-241 | one join iteration extends the list; it throws exactly on a missing own write or a write without a tag; the close flags only rise and record whether either side, or this side, closed; after a close exactly one write is added per step |
| Merge.Join | ClassServer/src/main/java/pt/ulisboa/tecnico/classes/classserver/ClassServerServiceImpl.java:203-242 | after n iterations without an exception the joined list has between n and 2n writes |
| Merge.JoinCrashIsFinal | ClassServer/src/main/java/pt/ulisboa/tecnico/classes/classserver/ClassServerServiceImpl.java:203-242 | once the join has thrown, running further iterations still ends in that exception |
| Merge.JoinInterleavesBeforeClose | ClassServer/src/main/java/pt/ulisboa/tecnico/classes/classserver/ClassServerServiceImpl.java:219-232 | until a close is seen, iteration i puts its pair at positions 2i and 2i+1: own write first on a primary, the peer's first on a secondary |
| Merge.CloseIsSticky | ClassServer/src/main/java/pt/ulisboa/tecnico/classes/classserver/ClassServerServiceImpl.java:203-242 | later iterations only extend the list; once either close flag is raised it stays raised, and each later step adds exactly one write |
| Merge.OneWritePerClosingStep | ClassServer/src/main/java/pt/ulisboa/tecnico/classes/classserver/ClassServerServiceImpl.java:233-241 | a step with a close raised adds only the peer's write when this replica closed, and only its own otherwise |
| Merge.JoinStepMirrored | ClassServer/src/main/java/pt/ulisboa/tecnico/classes/classserver/ClassServerServiceImpl.java:219-241 | one step on a primary and on a secondary, each fed the other's write, keeps their lists and close flags equal when at most one of them closes |
| Merge.JoinRoleSymmetric | ClassServer/src/main/java/pt/ulisboa/tecnico/classes/classserver/ClassServerServiceImpl.java:158-167 | the comment's claim, for the join: when at most one replica has a close among the joined positions, the primary and the secondary build the same list and raise the close flag at the same steps |
| Merge.JoinNotSymmetricAfterDoubleClose | ClassServer/src/main/java/pt/ulisboa/tecnico/classes/classserver/ClassServerServiceImpl.java:203-242 | when both replicas log a close at the first position and then differ, their joined lists differ |
| Merge.EnrollPeerWrite | ClassServer/src/main/java/pt/ulisboa/tecnico/classes/classserver/ClassServerServiceImpl.java:251-262 | one step-4 iteration refuses at most this write, appending it to the refusals; the counter rises by at most one, and must rise whenever the enrolled map changes; capacity, activity and the open flag stay; a closed roster is left alone |
| Merge.EnrollPeerWriteEffect | ClassServer/src/main/java/pt/ulisboa/tecnico/classes/classserver/ClassServerServiceImpl.java:251-262 | the iteration throws exactly when the write has no second field; a well-formed write is refused exactly when the class is open and its id already enrolled; it enrolls id -> name and raises the counter when the class is open, the id new and the class not full; otherwise the roster stays |
| Merge.ApplyPeerWrites | ClassServer/src/main/java/pt/ulisboa/tecnico/classes/classserver/ClassServerServiceImpl.java:250-262 | step 4 refuses at most as many writes as it processed and never changes the open flag |
| Merge.EnrollJoinedWrite | ClassServer/src/main/java/pt/ulisboa/tecnico/classes/classserver/ClassServerServiceImpl.java:287-305 | one `addNEnrollments` iteration refuses at most this write, appending it to the refusals; the counter rises by at most one, and must rise whenever the enrolled map changes; capacity, activity and the open flag stay |
| Merge.EnrollJoinedWriteEffect | ClassServer/src/main/java/pt/ulisboa/tecnico/classes/classserver/ClassServerServiceImpl.java:287-305 | the iteration throws exactly when the write has no second field; a well-formed write is refused exactly when the class is open and either full with the id new, or the id enrolled and the write not in the replica's own log; the roster changes only by enrolling a new id into an open class that is not full |
| Merge.AddNEnrollments | ClassServer/src/main/java/pt/ulisboa/tecnico/classes/classserver/ClassServerServiceImpl.java:285-307 | `addNEnrollments` refuses at most as many writes as it processed and never changes the open flag |
| Merge.ApplyCrashIsFinal | ClassServer/src/main/java/pt/ulisboa/tecnico/classes/classserver/ClassServerServiceImpl.java:250-262 | once step 4 has thrown, its roster is the final one |
| Merge.AddNCrashIsFinal | ClassServer/src/main/java/pt/ulisboa/tecnico/classes/classserver/ClassServerServiceImpl.java:285-307 | once `addNEnrollments` has thrown, its roster is the final one |
| Merge.ApplyCrashesIffMalformed | ClassServer/src/main/java/pt/ulisboa/tecnico/classes/classserver/ClassServerServiceImpl.java:250-262 | step 4 throws exactly when one of the writes it processes has no second field |
| Merge.AddNCrashesIffMalformed | ClassServer/src/main/java/pt/ulisboa/tecnico/classes/classserver/ClassServerServiceImpl.java:285-307 | `addNEnrollments` throws exactly when one of the writes it processes has no second field |
| Merge.PeerRefusalsArePeerWrites | ClassServer/src/main/java/pt/ulisboa/tecnico/classes/classserver/ClassServerServiceImpl.java:250-262 | every write step 4 refuses is one of the peer's writes |
| Merge.HeadroomNeverFills | ClassServer/src/main/java/pt/ulisboa/tecnico/classes/classserver/ClassServerServiceImpl.java:245-262 | when capacity minus counter covers every peer write, step 4 keeps the counter within counter + processed writes, leaves room for every write still to come and never changes the capacity |
| Merge.HeadroomRefusesExactlyDuplicates | ClassServer/src/main/java/pt/ulisboa/tecnico/classes/classserver/ClassServerServiceImpl.java:245-262 | with that headroom, an open class and well-formed writes, step 4 completes; it refuses exactly the writes whose id was enrolled before or named by an earlier write, in order; the counter rises by the writes not refused; the enrolled ids become the old ones plus every id named; the class stays open with its capacity |
| Merge.HeadroomKeepsEnrolledNames | ClassServer/src/main/java/pt/ulisboa/tecnico/classes/classserver/ClassServerServiceImpl.java:245-262 | under the same conditions every student enrolled before step 4 stays enrolled under the same name |
| Merge.HeadroomEnrollsWrite | ClassServer/src/main/java/pt/ulisboa/tecnico/classes/classserver/ClassServerServiceImpl.java:245-262 | under the same conditions a write naming an id not seen before it leaves that id enrolled under the write's name once the following writes are processed |
| Merge.HeadroomEnrollsUnderGivenNames | ClassServer/src/main/java/pt/ulisboa/tecnico/classes/classserver/ClassServerServiceImpl.java:245-262 | under the same conditions every write naming an id not seen before it ends with that id enrolled under the write's name |
| Merge.ClosedRosterIgnoresPeerWrites | ClassServer/src/main/java/pt/ulisboa/tecnico/classes/classserver/ClassServerServiceImpl.java:250-262 | on a closed roster step 4 changes nothing and refuses nothing |
| Merge.JoinedRefusalsAreJoinedWrites | ClassServer/src/main/java/pt/ulisboa/tecnico/classes/classserver/ClassServerServiceImpl.java:285-307 | every write `addNEnrollments` refuses comes from the joined list |
| Merge.OwnDuplicateIsNotRefused | ClassServer/src/main/java/pt/ulisboa/tecnico/classes/classserver/ClassServerServiceImpl.java:294-299 | a duplicate that is one of this replica's own logged writes is dropped without being refused |
| Merge.JoinedWritesKeepCapacity | ClassServer/src/main/java/pt/ulisboa/tecnico/classes/classserver/ClassServerServiceImpl.java:285-307 | on an open class with well-formed joined writes, `addNEnrollments` completes, keeps the class open with its capacity, never pushes a counter within capacity past it, and keeps every enrolled id |
| Merge.JoinedWriteEnrolledUnlessFull | ClassServer/src/main/java/pt/ulisboa/tecnico/classes/classserver/ClassServerServiceImpl.java:285-307 | under the same conditions, after a joined write is processed its id is enrolled or the class is full, and this lasts through the later writes |
| Merge.JoinedWritesEnrolledUnlessFull | ClassServer/src/main/java/pt/ulisboa/tecnico/classes/classserver/ClassServerServiceImpl.java:285-307 | under the same conditions every joined write ends with its id enrolled, unless the counter ends at the capacity |
| Merge.JoinedRefusalsHaveCause | ClassServer/src/main/java/pt/ulisboa/tecnico/classes/classserver/ClassServerServiceImpl.java:285-307 | under the same conditions every refused write is well formed and was refused for a reason that still holds: the class is full, or its id is enrolled and the write is not in the replica's own log |
| Merge.AdoptState | ClassServer/src/main/java/pt/ulisboa/tecnico/classes/classserver/ClassServerServiceImpl.java:136-155 | open flag, capacity and both maps come from the received state (keys exactly the listed ids); counter and active flag stay |
| Merge.AdoptDistinctState | ClassServer/src/main/java/pt/ulisboa/tecnico/classes/classserver/ClassServerServiceImpl.java:136-155 | a received state without repeated ids is adopted entry for entry |
| Merge.UnifyState | ClassServer/src/main/java/pt/ulisboa/tecnico/classes/classserver/ClassServerServiceImpl.java:168-276 | never changes the active flag or lowers the counter; unless it adopted a peer open, it changes the enrolled map only by raising the counter; a peer open means the peer's state is adopted with no refusals; without one, the class ends open exactly when it was open and not (the merge completed with headroom and the join met the peer's close and none of its own) |
| Merge.UnifyStateRefusesPeerDuplicates | ClassServer/src/main/java/pt/ulisboa/tecnico/classes/classserver/ClassServerServiceImpl.java:245-267 | with headroom, an open class and well-formed peer writes, the merge refuses exactly the peer writes naming an already-seen id, raises the counter by the rest, enrolls every id named and keeps the capacity |
| Merge.UnifyStateRefusesJoinedWrites | ClassServer/src/main/java/pt/ulisboa/tecnico/classes/classserver/ClassServerServiceImpl.java:270-307 | without headroom, on an open class with well-formed joined writes, the merge completes, stays open with its capacity, enrolls every joined write's id unless the class fills, and refuses a write only when the class is full or its id is enrolled and the write is not its own |
| Merge.EnrollmentsGrow | ClassServer/src/main/java/pt/ulisboa/tecnico/classes/classserver/ClassServerServiceImpl.java:249-267 | step 4 never lowers the counter or changes activity, and changes the enrolled map only by raising the counter |
| Merge.AddNGrow | ClassServer/src/main/java/pt/ulisboa/tecnico/classes/classserver/ClassServerServiceImpl.java:285-307 | `addNEnrollments` never lowers the counter or changes activity, and changes the enrolled map only by raising the counter |
| Merge.PeerOpenAdoptsPeerState | ClassServer/src/main/java/pt/ulisboa/tecnico/classes/classserver/ClassServerServiceImpl.java:193-198 | a peer write tagged "open" after well-formed ones makes the replica adopt the peer's state, keep its counter and refuse nothing |
| Merge.OpenScanIsNotCrash | ClassServer/src/main/java/pt/ulisboa/tecnico/classes/classserver/ClassServerServiceImpl.java:193-198 | the scan reports the open when every earlier peer write has a tag |
| Merge.EmptyOwnLogAppliesNothing | ClassServer/src/main/java/pt/ulisboa/tecnico/classes/classserver/ClassServerServiceImpl.java:173-180 | a replica with no writes of its own and no headroom joins nothing and so applies none of the peer's writes |
| Merge.PeerCloseEnrollsPhantomStudent | ClassServer/src/main/java/pt/ulisboa/tecnico/classes/classserver/ClassServerServiceImpl.java:249-267 | a peer's close reaching a replica with no writes of its own enrolls a student with id "close", and the class stays open |
| Merge.CloseWriteFields | ClassServer/src/main/java/pt/ulisboa/tecnico/classes/classserver/ProfessorServiceImpl.java:174 | the logged "close:0" is tagged close and has "0" as its second field |
| Merge.DiscardOne | ClassServer/src/main/java/pt/ulisboa/tecnico/classes/classserver/ClassServerServiceImpl.java:88-95 | one iteration changes only the discarded map, only by adding; it throws iff the write has no second field, and otherwise the write's id ends up discarded |
| Merge.DiscardAll | ClassServer/src/main/java/pt/ulisboa/tecnico/classes/classserver/ClassServerServiceImpl.java:88-95 | the loop over refusals completes exactly when every refused write has a second field, and changes nothing but the discarded map |
| Merge.DiscardCrashIsFinal | ClassServer/src/main/java/pt/ulisboa/tecnico/classes/classserver/ClassServerServiceImpl.java:88-95 | once the loop over refusals has thrown, its roster is the final one |
| Merge.DiscardAllRecordsEveryRefusal | ClassServer/src/main/java/pt/ulisboa/tecnico/classes/classserver/ClassServerServiceImpl.java:88-95 | after the loop every refused write's id is in the discarded map, and nothing but that map has changed |
| Merge.PropagateStateOutcome | ClassServer/src/main/java/pt/ulisboa/tecnico/classes/classserver/ClassServerServiceImpl.java:69-122 | deadline, then inactive (INACTIVE_SERVER), then an invalid state (INVALID_ARGUMENT), each leaving the roster alone; the log is cleared exactly on OK; OK exactly when the deadline holds, the replica is active, the state valid, the merge completed and every refusal has a second field; then the roster is the merged one with every refused id discarded |
| Gossip.LogAtClockKeepsContiguous | ClassServer/src/main/java/pt/ulisboa/tecnico/classes/classserver/ProfessorServiceImpl.java:87-88 | logging at the clock and bumping it keeps the log's keys exactly the last |log| clocks |
| Gossip.ContiguousLogHasEveryPosition | ClassServer/src/main/java/pt/ulisboa/tecnico/classes/classserver/ClassServerServiceImpl.java:206-207 | with a contiguous log, every position the join looks up holds an own write |
| Gossip.AscendingWriteAt | ClassServer/src/main/java/pt/ulisboa/tecnico/classes/classserver/ClassServerServiceImpl.java:350-360 | in a request with ascending clocks, looking up an entry's clock finds that entry's write |
| Gossip.SentWritesMatchLog | ClassServer/src/main/java/pt/ulisboa/tecnico/classes/classserver/ClassServerFrontend.java:139-151 | the request built from a contiguous log sends its i-th write at clock start+i, so the peer's join finds exactly this replica's write at each position |
| Gossip.LastAnswer | ClassServer/src/main/java/pt/ulisboa/tecnico/classes/classserver/ClassServerFrontend.java:161-198 | the response kept is None exactly when every call made failed, and otherwise one of the answers received |
| Gossip.CallsMade | ClassServer/src/main/java/pt/ulisboa/tecnico/classes/classserver/ClassServerFrontend.java:161-198 | between one and three calls; every call but the last made was retried, and fewer than three means the last was not |
| Gossip.GossipRound | ClassServer/src/main/java/pt/ulisboa/tecnico/classes/classserver/ClassServerFrontend.java:206-231 | skipped exactly for a timer round with gossip off; completed exactly when it is not skipped and the last answer exists and carries a valid state; a completed round adopts that state, empties the log and keeps the counter and activity; any other round changes nothing |
| Gossip.InactivePeerWipesState | ClassServer/src/main/java/pt/ulisboa/tecnico/classes/classserver/ClassServerFrontend.java:206-231 | three INACTIVE_SERVER answers still complete the round: the replica adopts the empty state, keeps its counter, and loses its log |
| Gossip.TimerRoundRespectsGossipFlag | ClassServer/src/main/java/pt/ulisboa/tecnico/classes/classserver/ClassServerFrontend.java:207-209 | with gossip off a timer round does nothing, whatever the peer would answer |
| Gossip.UnansweredRoundKeepsLog | ClassServer/src/main/java/pt/ulisboa/tecnico/classes/classserver/ClassServerFrontend.java:206-231 | a round in which every call fails keeps roster and log and does not complete |
| Gossip.ReplicaFrontend.constructor | ClassServer/src/main/java/pt/ulisboa/tecnico/classes/classserver/ClassServerFrontend.java:79-85 | an empty log, clock 0 and gossip on |
| Gossip.ReplicaFrontend.SetClock | ClassServer/src/main/java/pt/ulisboa/tecnico/classes/classserver/ClassServerFrontend.java:45 | only the clock changes |
| Gossip.ReplicaFrontend.AddWrite | ClassServer/src/main/java/pt/ulisboa/tecnico/classes/classserver/ClassServerFrontend.java:53 | the write is stored under the given clock, replacing what was there; nothing else changes |
| Gossip.ReplicaFrontend.ClearWrites | ClassServer/src/main/java/pt/ulisboa/tecnico/classes/classserver/ClassServerFrontend.java:49 | the log is emptied; the clock keeps running |
| Gossip.ReplicaFrontend.SetActiveGossip | ClassServer/src/main/java/pt/ulisboa/tecnico/classes/classserver/ClassServerFrontend.java:62-64 | only the gossip flag changes |
| Gossip.ReplicaFrontend.BuildPropagateStateRequest | ClassServer/src/main/java/pt/ulisboa/tecnico/classes/classserver/ClassServerFrontend.java:139-151 | the request describes the roster and lists every logged write with its clock, in ascending clock order |
| Gossip.ReplicaFrontend.AttemptPropagateState | ClassServer/src/main/java/pt/ulisboa/tecnico/classes/classserver/ClassServerFrontend.java:161-198 | the loop makes `CallsMade` calls and keeps `LastAnswer` of them |
| Gossip.ReplicaFrontend.PropagateState | ClassServer/src/main/java/pt/ulisboa/tecnico/classes/classserver/ClassServerFrontend.java:206-231 | roster, log and result are those of `GossipRound`; clock and gossip flag stay |
| Gossip.ListWrites | ClassServer/src/main/java/pt/ulisboa/tecnico/classes/classserver/ClassServerFrontend.java:145-150 | the writes carry ascending clocks and list the log exactly |
| Gossip.UpdateState | ClassServer/src/main/java/pt/ulisboa/tecnico/classes/classserver/ClassServerFrontend.java:239-256 | the roster becomes `AdoptState` of the received state |
| Gossip.FillMap | ClassServer/src/main/java/pt/ulisboa/tecnico/classes/classserver/ClassServerFrontend.java:239-256 | the map filled by `put` in list order is `ToMap` of the list |
| ReplicaService.ClassServerService.constructor | ClassServer/src/main/java/pt/ulisboa/tecnico/classes/classserver/ClassServerServiceImpl.java:39-42 | holds the shared roster, the gossip frontend and the replica's type |
| ReplicaService.ClassServerService.GetMinClock | ClassServer/src/main/java/pt/ulisboa/tecnico/classes/classserver/ClassServerServiceImpl.java:331-341 | the loop computes `MinClock`, whose meaning `MinClockIsLeast` states |
| ReplicaService.ClassServerService.GetWriteGivenTime | ClassServer/src/main/java/pt/ulisboa/tecnico/classes/classserver/ClassServerServiceImpl.java:350-360 | the loop computes `WriteAt`, the first matching entry's write |
| ReplicaService.ClassServerService.IsMyWrite | ClassServer/src/main/java/pt/ulisboa/tecnico/classes/classserver/ClassServerServiceImpl.java:315-323 | true exactly when the write is one of the values of the replica's log |
| ReplicaService.ClassServerService.ScanForOpen | ClassServer/src/main/java/pt/ulisboa/tecnico/classes/classserver/ClassServerServiceImpl.java:193-198 | the loop computes `ScanOpen` |
| ReplicaService.ClassServerService.JoinWrites | ClassServer/src/main/java/pt/ulisboa/tecnico/classes/classserver/ClassServerServiceImpl.java:203-242 | the loop computes `Join` over the first nMin positions |
| ReplicaService.ClassServerService.JoinOne | ClassServer/src/main/java/pt/ulisboa/tecnico/classes/classserver/ClassServerServiceImpl.java:206-241 | one loop body computes `JoinStep` |
| ReplicaService.ClassServerService.EnrollPeerWrites | ClassServer/src/main/java/pt/ulisboa/tecnico/classes/classserver/ClassServerServiceImpl.java:249-262 | the roster and the refusals are those of `ApplyPeerWrites`; None when a write lacks a field |
| ReplicaService.ClassServerService.AddNEnrollments | ClassServer/src/main/java/pt/ulisboa/tecnico/classes/classserver/ClassServerServiceImpl.java:285-307 | the roster and the refusals are those of `Merge.AddNEnrollments`; None when a write lacks a field |
| ReplicaService.ClassServerService.UnifyState | ClassServer/src/main/java/pt/ulisboa/tecnico/classes/classserver/ClassServerServiceImpl.java:168-276 | the roster and the refusals are those of `Merge.UnifyState` |
| ReplicaService.ClassServerService.DiscardRefused | ClassServer/src/main/java/pt/ulisboa/tecnico/classes/classserver/ClassServerServiceImpl.java:88-95 | the roster is that of `DiscardAll`; false exactly when the loop threw |
| ReplicaService.ClassServerService.PropagateState | ClassServer/src/main/java/pt/ulisboa/tecnico/classes/classserver/ClassServerServiceImpl.java:69-122 | roster, log and answer follow `PropagateStateOutcome`; OK carries a state describing the new roster, INACTIVE_SERVER the empty one |
| HandlerSpec.LogWrite | ClassServer/src/main/java/pt/ulisboa/tecnico/classes/classserver/ProfessorServiceImpl.java:87-88 | the write is stored at the old clock, the clock moves on by one, and every other entry and the roster stay |
| HandlerSpec.OpenEnrollmentsHandler | ClassServer/src/main/java/pt/ulisboa/tecnico/classes/classserver/ProfessorServiceImpl.java:67-144 | inactive, secondary, negative capacity each answered in that order without change; OK exactly for an active primary, closed class and capacity above the enrolled map's size, and then the roster opens with that capacity and "open:<capacity>" is logged |
| HandlerSpec.CloseEnrollmentsHandler | ClassServer/src/main/java/pt/ulisboa/tecnico/classes/classserver/ProfessorServiceImpl.java:153-216 | inactive, secondary, already closed each answered in order; OK exactly for an active primary with an open class, and then the class closes and "close:0" is logged |
| HandlerSpec.CancelEnrollmentHandler | ClassServer/src/main/java/pt/ulisboa/tecnico/classes/classserver/ProfessorServiceImpl.java:283-348 | deadline, inactive, secondary, invalid id answered in order; OK exactly for an active primary, an accepted id and an enrolled student; the log and clock never change |
| HandlerSpec.EnrollHandler | ClassServer/src/main/java/pt/ulisboa/tecnico/classes/classserver/StudentServiceImpl.java:114-181 | deadline, then an invalid student (even on an inactive replica), then inactive; OK exactly when open, not enrolled and not full, and then the student is added and "id:name" is logged; no other answer changes anything |
| HandlerSpec.ActivateHandler | ClassServer/src/main/java/pt/ulisboa/tecnico/classes/classserver/AdminServiceImpl.java:50-67 | always OK; the roster and gossip are switched on; log and clock stay |
| HandlerSpec.DeactivateHandler | ClassServer/src/main/java/pt/ulisboa/tecnico/classes/classserver/AdminServiceImpl.java:75-92 | always OK; the roster and gossip are switched off; log and clock stay |
| HandlerSpec.SetGossipHandler | ClassServer/src/main/java/pt/ulisboa/tecnico/classes/classserver/AdminServiceImpl.java:157-218 | deadline, then inactive; otherwise only the gossip flag changes |
| HandlerSpec.GossipHandler | ClassServer/src/main/java/pt/ulisboa/tecnico/classes/classserver/AdminServiceImpl.java:221-252 | deadline, then inactive; otherwise the replica takes the command round's roster and log, keeps clock and gossip flag, and answers OK exactly when the round completed, never WRITING_NOT_SUPPORTED |
| HandlerSpec.OpenKeepsLogContiguous | ClassServer/src/main/java/pt/ulisboa/tecnico/classes/classserver/ProfessorServiceImpl.java:87-88 | opening keeps the log contiguous below the clock |
| HandlerSpec.CloseKeepsLogContiguous | ClassServer/src/main/java/pt/ulisboa/tecnico/classes/classserver/ProfessorServiceImpl.java:174-175 | closing keeps the log contiguous below the clock |
| HandlerSpec.CancelKeepsLog | ClassServer/src/main/java/pt/ulisboa/tecnico/classes/classserver/ProfessorServiceImpl.java:283-348 | a cancellation logs nothing and leaves the clock alone |
| HandlerSpec.EnrollKeepsLogContiguous | ClassServer/src/main/java/pt/ulisboa/tecnico/classes/classserver/StudentServiceImpl.java:140-141 | an enrollment keeps the log contiguous below the clock |
| HandlerSpec.AdminHandlersKeepLogContiguous | ClassServer/src/main/java/pt/ulisboa/tecnico/classes/classserver/AdminServiceImpl.java:221-252 | activate, deactivate, the gossip switches and a gossip round keep the log contiguous below the clock |
| HandlerSpec.EnrollAndCancelKeepConsistent | ClassServer/src/main/java/pt/ulisboa/tecnico/classes/classserver/StudentServiceImpl.java:114-181 | enrollments and cancellations keep the counter equal to the enrolled map's size and the maps disjoint |
| HandlerSpec.SecondaryRefusesProfessorWrites | ClassServer/src/main/java/pt/ulisboa/tecnico/classes/classserver/ProfessorServiceImpl.java:79-81 | an active secondary refuses open, close and cancel without change, yet answers enrollments exactly as a primary |
| HandlerSpec.EnrollWriteRoundTrip | ClassServer/src/main/java/pt/ulisboa/tecnico/classes/classserver/StudentServiceImpl.java:140 | a logged enrollment whose name has no colon is read back by the peer as the same id and name |
| HandlerSpec.ColonInNameIsTruncated | ClassServer/src/main/java/pt/ulisboa/tecnico/classes/classserver/StudentServiceImpl.java:140 | names are only checked for length, so a colon in a name makes the peer read only the part before it |
| HandlerSpec.OpenWriteFields | ClassServer/src/main/java/pt/ulisboa/tecnico/classes/classserver/ProfessorServiceImpl.java:87 | the logged open is tagged "open" and carries the capacity's digits |
| ProfessorService.ProfessorServiceImpl.constructor | ClassServer/src/main/java/pt/ulisboa/tecnico/classes/classserver/ProfessorServiceImpl.java:37-40 | holds the shared roster, the gossip frontend and the replica's type |
| ProfessorService.ProfessorServiceImpl.Log | ClassServer/src/main/java/pt/ulisboa/tecnico/classes/classserver/ProfessorServiceImpl.java:87-88 | the replica becomes `LogWrite` of the old one |
| ProfessorService.ProfessorServiceImpl.OpenEnrollments | ClassServer/src/main/java/pt/ulisboa/tecnico/classes/classserver/ProfessorServiceImpl.java:67-144 | the replica and the answer are those of `OpenEnrollmentsHandler` |
| ProfessorService.ProfessorServiceImpl.CloseEnrollments | ClassServer/src/main/java/pt/ulisboa/tecnico/classes/classserver/ProfessorServiceImpl.java:153-216 | the replica and the answer are those of `CloseEnrollmentsHandler` |
| ProfessorService.ProfessorServiceImpl.ListClass | ClassServer/src/main/java/pt/ulisboa/tecnico/classes/classserver/ProfessorServiceImpl.java:225-275 | an inactive replica answers INACTIVE_SERVER with the empty state; otherwise OK with a state describing the roster |
| ProfessorService.ProfessorServiceImpl.CancelEnrollment | ClassServer/src/main/java/pt/ulisboa/tecnico/classes/classserver/ProfessorServiceImpl.java:283-348 | the replica and the answer are those of `CancelEnrollmentHandler` |
| StudentService.StudentServiceImpl.constructor | ClassServer/src/main/java/pt/ulisboa/tecnico/classes/classserver/StudentServiceImpl.java:28 | holds the shared roster and the gossip frontend |
| StudentService.StudentServiceImpl.ListClass | ClassServer/src/main/java/pt/ulisboa/tecnico/classes/classserver/StudentServiceImpl.java:50-103 | deadline first; an inactive replica answers INACTIVE_SERVER with the empty state; otherwise OK with a state describing the roster |
| StudentService.StudentServiceImpl.Enroll | ClassServer/src/main/java/pt/ulisboa/tecnico/classes/classserver/StudentServiceImpl.java:114-181 | the replica and the answer are those of `EnrollHandler` |
| AdminService.AdminServiceImpl.constructor | ClassServer/src/main/java/pt/ulisboa/tecnico/classes/classserver/AdminServiceImpl.java:32-34 | holds the roster and the frontend that gossips it |
| AdminService.AdminServiceImpl.Activate | ClassServer/src/main/java/pt/ulisboa/tecnico/classes/classserver/AdminServiceImpl.java:50-67 | the replica and the answer are those of `ActivateHandler` |
| AdminService.AdminServiceImpl.Deactivate | ClassServer/src/main/java/pt/ulisboa/tecnico/classes/classserver/AdminServiceImpl.java:75-92 | the replica and the answer are those of `DeactivateHandler` |
| AdminService.AdminServiceImpl.Dump | ClassServer/src/main/java/pt/ulisboa/tecnico/classes/classserver/AdminServiceImpl.java:123-154 | deadline first; an inactive replica answers INACTIVE_SERVER with the empty state; otherwise OK with a state describing the roster |
| AdminService.AdminServiceImpl.SetGossip | ClassServer/src/main/java/pt/ulisboa/tecnico/classes/classserver/AdminServiceImpl.java:157-218 | the replica and the answer are those of `SetGossipHandler` |
| AdminService.AdminServiceImpl.Gossip | ClassServer/src/main/java/pt/ulisboa/tecnico/classes/classserver/AdminServiceImpl.java:221-252 | the replica and the answer are those of `GossipHandler` |
| ClientRouting.FirstFreshFrom | Professor/src/main/java/pt/ulisboa/tecnico/classes/professor/ClassServerFrontend.java:191-202 | the first server from a position on that was neither contacted nor tried, with every one before it not fresh; None when there is none |
| ClientRouting.Occurrences | Professor/src/main/java/pt/ulisboa/tecnico/classes/professor/ClassServerFrontend.java:211-215 | the count is positive exactly when the server occurs, and at most the list's length |
| ClientRouting.LeastUsedScanFinds | Professor/src/main/java/pt/ulisboa/tecnico/classes/professor/ClassServerFrontend.java:205-223 | the scan finds nothing exactly when every access was already tried; otherwise it finds an untried access with its count |
| ClientRouting.LeastUsedScanIsLeast | Professor/src/main/java/pt/ulisboa/tecnico/classes/professor/ClassServerFrontend.java:205-223 | what the scan finds has the least count among untried accesses, and a tie goes to the latest access |
| ClientRouting.ChooseServerAvoidsUsed | Professor/src/main/java/pt/ulisboa/tecnico/classes/professor/ClassServerFrontend.java:186-225 | the server chosen is untried and known whenever any is, "" otherwise; a fresh primary is preferred to any secondary, and a fresh secondary to any server already contacted |
| ClientRouting.ChooseServerIsUntried | Professor/src/main/java/pt/ulisboa/tecnico/classes/professor/ClassServerFrontend.java:186-225 | the server chosen is never one already tried for this request, unless it is "" |
| ClientRouting.ReadRouteFindsAServer | Professor/src/main/java/pt/ulisboa/tecnico/classes/professor/ClassServerFrontend.java:144-178 | with a primary known or a server already contacted, a read goes to one of the known or contacted servers |
| ClientRouting.AttemptsFrom | Professor/src/main/java/pt/ulisboa/tecnico/classes/professor/ClassServerFrontend.java:242-269 | the attempts stop at the first one that ends the loop and never exceed the budget |
| ClientRouting.LoopStopsAtFirstAnswer | Professor/src/main/java/pt/ulisboa/tecnico/classes/professor/ClassServerFrontend.java:242-269 | every attempt before the last met INACTIVE_SERVER or a retryable failure; an INACTIVE_SERVER reply is handed back only after the whole budget; an UNKNOWN failure stops the loop at once |
| ClientRouting.SwitchesEveryThirdMeans | Professor/src/main/java/pt/ulisboa/tecnico/classes/professor/ClassServerFrontend.java:260-267 | within a request the server can change only at attempts 3, 6, 9, ..., and then to one not tried before in it, or to none |
| ClientRouting.RetryLoopStops | Professor/src/main/java/pt/ulisboa/tecnico/classes/professor/ClassServerFrontend.java:234-270 | the loop makes the attempts `AttemptsFrom` counts and hands back the last reply, whatever servers it goes to |
| ClientRouting.RetryLoopSwitches | Professor/src/main/java/pt/ulisboa/tecnico/classes/professor/ClassServerFrontend.java:234-270 | the loop records one access per attempt after the old ones, switching server only every third attempt |
| ClientRouting.ClassServerFrontend.constructor | Professor/src/main/java/pt/ulisboa/tecnico/classes/professor/ClassServerFrontend.java:56-62 | no accesses, clock 0, latest operation a read |
| ClientRouting.ClassServerFrontend.AddOperation | Professor/src/main/java/pt/ulisboa/tecnico/classes/professor/ClassServerFrontend.java:133-137 | the server is inserted at index clock, the operation recorded and the clock bumped; in a valid state this appends |
| ClientRouting.ClassServerFrontend.FirstFresh | Professor/src/main/java/pt/ulisboa/tecnico/classes/professor/ClassServerFrontend.java:191-202 | the scan computes `FirstFreshFrom` from position 0 |
| ClientRouting.ClassServerFrontend.Count | Professor/src/main/java/pt/ulisboa/tecnico/classes/professor/ClassServerFrontend.java:211-215 | the inner loop computes `Occurrences` |
| ClientRouting.ClassServerFrontend.LeastUsed | Professor/src/main/java/pt/ulisboa/tecnico/classes/professor/ClassServerFrontend.java:205-223 | the scan computes `LeastUsedScan` and returns the access it picks |
| ClientRouting.ClassServerFrontend.ChooseAnotherServer | Professor/src/main/java/pt/ulisboa/tecnico/classes/professor/ClassServerFrontend.java:186-225 | returns `ChooseServer` of the current accesses |
| ClientRouting.ClassServerFrontend.NextAccess | Professor/src/main/java/pt/ulisboa/tecnico/classes/professor/ClassServerFrontend.java:144-178 | after a write the server of the latest attempt, otherwise `ChooseServer` with nothing excluded |
| ClientRouting.ClassServerFrontend.AttemptRequest | Professor/src/main/java/pt/ulisboa/tecnico/classes/professor/ClassServerFrontend.java:234-270 | makes the attempts `AttemptsFrom` counts, hands back `LoopReply`, starts at `NextServer`, appends one access per attempt, and switches server only every third attempt |
| ClientRouting.ClassServerFrontend.RetryFrom | Professor/src/main/java/pt/ulisboa/tecnico/classes/professor/ClassServerFrontend.java:242-269 | accesses, reply and attempt count are those of `RetryLoop` |
| Naming.Without | NamingServer/src/main/java/pt/ulisboa/tecnico/classes/namingserver/ServiceEntry.java:42-45 | keeps, in order, exactly the servers at other addresses |
| Naming.WithoutShrinksIffPresent | NamingServer/src/main/java/pt/ulisboa/tecnico/classes/namingserver/ServiceEntry.java:42-45 | removal shortens the list exactly when some server has the address; otherwise the list is unchanged |
| Naming.WithoutKeepsOrder | NamingServer/src/main/java/pt/ulisboa/tecnico/classes/namingserver/ServiceEntry.java:42-45 | removal distributes over concatenation, so the survivors keep their order |
| Naming.AppendIsUnique | NamingServer/src/main/java/pt/ulisboa/tecnico/classes/namingserver/ServiceEntry.java:33-40 | appending a server at a new address keeps addresses unique |
| Naming.WithoutIsUnique | NamingServer/src/main/java/pt/ulisboa/tecnico/classes/namingserver/ServiceEntry.java:42-45 | removal keeps addresses unique |
| Naming.MatchingSoundAndComplete | NamingServer/src/main/java/pt/ulisboa/tecnico/classes/namingserver/NamingServerServiceImpl.java:131-137 | an address is returned exactly when some server of the service has it and holds every qualifier asked for |
| Naming.MatchingNothingIsAll | NamingServer/src/main/java/pt/ulisboa/tecnico/classes/namingserver/NamingServerServiceImpl.java:133-135 | asking for no qualifier returns every registered address |
| Naming.ServerEntry.constructor | NamingServer/src/main/java/pt/ulisboa/tecnico/classes/namingserver/ServerEntry.java:12-15 | holds the address and the qualifiers given |
| Naming.ServerEntry.SetHostPort | NamingServer/src/main/java/pt/ulisboa/tecnico/classes/namingserver/ServerEntry.java:21-23 | only the address changes |
| Naming.ServerEntry.SetQualifiers | NamingServer/src/main/java/pt/ulisboa/tecnico/classes/namingserver/ServerEntry.java:29-31 | only the qualifiers change |
| Naming.ServerEntry.AddQualifiers | NamingServer/src/main/java/pt/ulisboa/tecnico/classes/namingserver/ServerEntry.java:33-35 | the qualifier is appended, duplicates allowed |
| Naming.ServiceEntry.constructor | NamingServer/src/main/java/pt/ulisboa/tecnico/classes/namingserver/ServiceEntry.java:13-15 | the name given and no servers |
| Naming.ServiceEntry.AddServerEntry | NamingServer/src/main/java/pt/ulisboa/tecnico/classes/namingserver/ServiceEntry.java:33-40 | a taken address fails with nothing changed; otherwise the server is appended; unique addresses stay unique |
| Naming.ServiceEntry.RemoveServerEntry | NamingServer/src/main/java/pt/ulisboa/tecnico/classes/namingserver/ServiceEntry.java:42-45 | the servers become `Without` the address; true exactly when one had it; unique addresses stay unique |
| Naming.NamingServices.constructor | NamingServer/src/main/java/pt/ulisboa/tecnico/classes/namingserver/NamingServices.java:16-18 | no services |
| Naming.NamingServices.AddService | NamingServer/src/main/java/pt/ulisboa/tecnico/classes/namingserver/NamingServices.java:28-33 | a taken name fails with nothing changed; otherwise the entry is added under its name |
| Naming.NamingServices.RemoveService | NamingServer/src/main/java/pt/ulisboa/tecnico/classes/namingserver/NamingServices.java:35-37 | nothing changes: the map is keyed by name but handed the entry object |
| Naming.NamingServices.Register | NamingServer/src/main/java/pt/ulisboa/tecnico/classes/namingserver/NamingServices.java:39-45 | an unknown qualifier fails first, with nothing changed; an unknown service next; then a taken address fails and a new one is appended |
| Naming.NamingServices.Delete | NamingServer/src/main/java/pt/ulisboa/tecnico/classes/namingserver/NamingServices.java:47-51 | an unknown service fails; otherwise the servers at the address go, and the call fails exactly when there were none |
| Naming.NamingServerServiceImpl.constructor | NamingServer/src/main/java/pt/ulisboa/tecnico/classes/namingserver/NamingServerServiceImpl.java:30-34 | the registry starts with the one service "Turmas", without servers |
| Naming.NamingServerServiceImpl.Register | NamingServer/src/main/java/pt/ulisboa/tecnico/classes/namingserver/NamingServerServiceImpl.java:54-83 | deadline first; an unknown qualifier or a taken address gives INVALID_ARGUMENT with nothing changed; an unknown service escapes as UNKNOWN; otherwise OK and the server is appended |
| Naming.NamingServerServiceImpl.Delete | NamingServer/src/main/java/pt/ulisboa/tecnico/classes/namingserver/NamingServerServiceImpl.java:85-108 | no deadline check; an unknown service escapes as UNKNOWN; otherwise the servers at the address go, with OK exactly when there was one and INVALID_ARGUMENT otherwise |
| Naming.NamingServerServiceImpl.Lookup | NamingServer/src/main/java/pt/ulisboa/tecnico/classes/namingserver/NamingServerServiceImpl.java:110-150 | deadline first; an unknown service escapes as UNKNOWN; otherwise exactly the addresses of the servers holding every qualifier asked for |

## Left out

- gRPC transport, channels, stubs and `Context` deadlines: a deadline is a boolean parameter, and the outcome of each remote call is an input sequence.
- `synchronized` blocks, the `Timer` thread and concurrent handlers: every operation runs atomically.
- 32-bit `int` overflow of the clock, the capacity and the counter: integers are unbounded.
- `Character.isDigit` also accepts non-ASCII digits. The model accepts only '0'..'9'.
- Iteration order of `HashMap`/`ConcurrentHashMap`: lists built from a map come back in an unspecified order. Their contract says only that they list the map exactly.
- Getters, `toString`, the `Debug` helper and debug printing: they do not change state.
- `NamingServices.list` (debug listing) is not modelled.
- The main classes of the class server, the naming server and the three clients are not part of this model. Neither is their command-line parsing.
- The admin client's frontend and both naming-server frontends only forward calls. They are not part of this model.
- The client frontends' per-RPC attempt methods all share one retry loop, modelled once as `AttemptRequest`. The printing wrappers around them are not modelled.
- Naming server entries are modelled as a sequence of `Server` values, where Java keeps a queue of `ServerEntry` objects. The order of registration is kept. Each registered entry is stored as a copy of the new `ServerEntry`'s fields, so aliasing between the queue and that object is not modelled; nothing in the naming server changes an entry after registering it.
- `Naming.NamingServerServiceImpl.Lookup` returns the matching addresses as a set, so their order and any repeats are not modelled.
- The singletons that hand out the shared roster and frontend are constructor parameters.
- Exception classes are modelled as outcome constructors, without messages.
- The commented-out code in `ClassServerServiceImpl` is not modelled.
- `Validate.ValidateId`: its contract states only when `substring` throws. Which ids are accepted is stated by `Validate.AcceptedIdShape`.
- `Validate.ValidateId`: lengths are counted in Unicode code points (`|s|` on Dafny strings), where Java's `length()` and `substring(0, 5)` count UTF-16 code units. An id holding characters outside the Basic Multilingual Plane can therefore be refused with an index error here where Java reaches the shape check and refuses it as an invalid student.
- `Validate.ValidateName`: the 3 to 30 bound is counted in code points, not UTF-16 code units, so a name with characters outside the Basic Multilingual Plane may get a different verdict than in Java.
- `Validate.ValidateEnrollment`: inherits both gaps above, so a short id made of characters outside the Basic Multilingual Plane ends as `UNKNOWN` in the handlers where Java answers `INVALID_ARGUMENT`.
- `Merge.MinClock`: its own contract states only the empty case. The full property is `Merge.MinClockIsLeast`.
