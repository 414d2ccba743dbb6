# Verified model of the GF3258 enrollment, persistence and bootstrap code

The project models the parts of the fingerprint driver whose correctness spans several functions, and proves what they
promise of every input and every run.

**Enrollment** (`Relations`, `GraphModel`, `GraphProofs`, `GraphRecords`, `GraphPoses`, `GraphPromotion`,
`GraphOrder`, `GraphFailures`, `EnrollmentGraph`, `EnrollmentModel`, `EnrollmentProofs`, `EnrollmentAdds`,
`EnrollmentFailures`, `EnrollmentTemplate`, `FeaturePartition`, `FeatureEnrollment`).  A template grows one
sample at a time.  The newest sample is registered against all previous ones, joins or founds the canonical component, and
promotes further samples through a worklist.  `GraphModel` and `EnrollmentModel` give the operations on values, the classes
`Enrollment` and `Template` update their fields in place and are proved equal to them, and the proofs are about the values:
promotion is a least fixpoint taken in a fixed order, no graph error is reachable, and stored transforms keep their
meaning.  `EnrollmentAdds` states one add in records, registrations and scores.

**Persistence** (`ForestModel`, `ForestProofs`, `ForestOrder`, `ForestUnique`, `ForestSelection`, `PointCodec`,
`TemplateFormat`, `ValidityMask`, `TemplateGrammar`, `TemplateRoundTrip`, `TemplateLayout`, `TemplateDecoder`,
`TemplateProjection`, `TemplateEncoder`, `Tgla`, `EndToEnd`).  A template is projected to a value, printed, wrapped and
read back.  `TemplateFormat` gives the layout and what the strict decoder insists on, and `TemplateLayout` where every
field lies; `TemplateGrammar` is the decoder as a function and `TemplateDecoder` as a cursor over bytes; `TemplateEncoder`
is the byte-pushing encoder.  `ForestUnique` describes the forest without its construction.  `EndToEnd` joins
everything: what is decoded is what was enrolled.

**Bootstrap** (`Protocol`, `Firmware`, `Transport`, `Waiting`, `KeyRead`, `GoodixTransport`, `ColdBootstrap`,
`BootstrapEngine`, `BootstrapSafety`, `BootstrapHistory`, `BootstrapRefinement`, `BootstrapKeyPhase`, `BootstrapRuns`, `BootstrapTransfer`).
The callback-driven engine is a step function over completed transfers, proved safe over every run.  Driven over a stream of
IN transfers it does what the synchronous bootstrap does, block for block from the first key request to the firmware check.

**Kernels** (`BitVectors`, `ShiftRegister`, `Crc`, `CrcCheck`, `Envelope`, `SensorImage`, `ChipConfig`, `ChipBase`).
CRC-32/MPEG-2 (Annex A of ISO/IEC 13818-1) and CRC-32/ISO-HDLC (section 3.2.9 of IEEE 802.3), the bounds envelope, the sensor
reconstruction and the configuration checksum.

`Bytes`, `Arithmetic` and `Wrappers` hold machine words, a few arithmetic facts and result types.  Bytes and words are
bounded integers with explicit wrap-around; bit vectors appear only in the geometry of feature points and in the checksum
loops.

Transform arithmetic, point registration, map scoring and the novelty metric are parameters, arbitrary functions
throughout.  The pose results alone assume that composition and inversion form a group and `ExactOpsExist` shows that
assumption to be satisfiable.  Key unsealing, hash comparison and tag derivation are parameters of the bootstrap engine.

Where the code differs from what a reader would expect, the model follows the code:

- the encoder accepts and truncates a configured bound that the decoder rejects (`EndToEnd.LargeBoundUndecodable`);
- a polarity split outside its points is stored but not recovered (`EndToEnd.EnrolledIsDecoded` has the exact condition);
- the rounded orientation 0x8000 is stored as 0 (`PointCodec.RoundedPointsSurvive` has the exact interval);
- the engine reports a zero-length IN transfer as an error that the synchronous code skips
  (`BootstrapRuns.EngineMatchesExactly` has the exact condition);
- the engine opens the sealed key only once the hash is read, the synchronous code before it asks for the hash
  (`BootstrapRuns.EngineMatchesBootstrap` has the exact condition);
- a sample that arrives marked as a member can make its own add or a later one fail, or silently break the component; its
  own failing add is not undone but leaves the sample pushed (`EnrollmentFailures` has the exact conditions);
- a configuration record that overlaps the checksum word loses its value (`ChipConfig.ValueKeptExactly` has the exact
  condition).

## Model

| member | source | states |
|---|---|---|
| EndToEnd.EnrolledIsDecoded | src/enrollment_add.rs:316-466 | Main result: after any sequence of adds of fresh persistent samples of at most 120 points to an empty template of any configured bound, a template of at most fifty samples is stored, and whatever is stored decodes to exactly what was enrolled, field by field -- maps, masks, points, both quality parameters, every scalar, position, checkpoint, flag, selected relations, anchor, header and slots -- if and only if the bound is at most fifty and every retained polarity split lies within its points. |
| FeatureEnrollment.EnrolledFeaturesAreDecoded | src/feature_enrollment.rs:674-709 | For any sequence of ready features added to the recovered 50/40 profile the stored node always decodes: the first forty features come back with their points, maps, masks, quality, coverage, split, flag, position and checkpoint, with scalar 13c only when it is odd and above 0x3e9 and the embedded state only when it is not 0, and the template is the one of those features alone, so later adds change nothing. |
| FeatureEnrollment.FromExtraction | src/feature_enrollment.rs:343-398 | Building a feature rejects more than 120 points; otherwise it stores the points in partitioned order with the class-0 count as split, sets quality and coverage, and keeps the maps, the status and the other scalars, so that the result is always a legal enrollment input. |
| EndToEnd.DecodedPointGeometry | src/template_decode.rs:522-543 | Every decoded point that was rounded before enrollment shows the matcher exact coordinates, and its normalised orientation exactly outside the interval 0x7f80..0x8080. |
| EndToEnd.StoredDecodes | src/template_persistence.rs:445-468 | One consistent, complete template of at most fifty samples that fit: it is always stored, and its node decodes to its projection if and only if the configured bound is at most fifty and all splits are in range. |
| EndToEnd.LargeBoundUndecodable | src/template_persistence.rs:423 | Every configured bound is encoded without complaint and truncated to 32 bits; the decoder rejects the bytes when these are below the number of samples or above fifty, and otherwise reads exactly the template with the truncated bound if and only if all splits are in range. |
| EndToEnd.BoundsThatFail | src/template_persistence.rs:423 | Concrete bounds: 51 is encoded and rejected, 2^32 + 40 comes back as 40. |
| EndToEnd.SplitThatFails | src/template_decode.rs:706-712 | A concrete sample whose polarity split is past its points: stored, not recovered. |
| EndToEnd.RunRetains | src/enrollment_add.rs:338-349 | A run keeps the content of its inputs, as many as fit, in order, each with its own sample index and relation checkpoint. |
| EndToEnd.StoreTemplate | src/template_persistence.rs:445-468 | Encoding and wrapping as running code equal the specification of storing. |
| EndToEnd.DecodeFreshNode | src/template_decode.rs:1128-1133 | Validating the node and decoding its raw template as running code equal the specification of decoding. |
| GraphProofs.PromotionIsLeastFixpoint | src/enrollment_graph.rs:284-358 | One promotion phase never fails and promotes exactly the least set that contains the seeds (successful outsiders scoring at least 209) and is closed under edges with value >= 0 and score above the threshold, each sample once; nothing but the flags of these samples and their own anchor records changes. |
| GraphProofs.PromotionIgnoresOrder | src/enrollment_graph.rs:284-358 | The promoted set depends on which previous samples succeeded, not on the order in which they are visited. |
| GraphPromotion.PromotedExactly | src/enrollment_graph.rs:284-358 | In table records and scores: an outsider is promoted if and only if it is a successful partner whose record is not negative and scores at least 209, or its record to a promoted sample is not negative and scores above the threshold; no smaller set is closed under the two gates. |
| GraphPromotion.IntegrationPromotes | src/enrollment_graph.rs:187-406 | One integration, in the records it starts from: the newest sample joins if and only if a partner is a member or, without a component, the strongest partner founds one; then exactly the outsiders past the two gates join, and nobody else. |
| GraphOrder.PromotionOrder | src/enrollment_graph.rs:284-358 | The order of promotion and the stored transforms, for arbitrary transform arithmetic: first the partners in list order, then layer by layer each sample through the first promoted one possible, those through the same one ascending; each record to the anchor is composed of the transform of the sample it was reached from and the relation between the two. |
| GraphOrder.IntegrationOrder | src/enrollment_graph.rs:187-406 | The same order and transforms for a whole integration, in the records it starts from. |
| GraphOrder.AttachedThrough | src/enrollment_graph.rs:220-242 | The newest sample is attached through the last of its strongest member partners: its record to the anchor is composed of that partner's transform and the direct one. |
| GraphPromotion.ChecksInOrder | src/enrollment_graph.rs:197-214 | The argument check stops at the first partner that is not an earlier sample with a stored record, and says whether its index or its record is at fault. |
| GraphPromotion.RefusedUnchanged | src/enrollment_graph.rs:192-214 | Integrating any sample but the newest, or with an inadmissible partner, fails and changes nothing. |
| GraphProofs.IntegrationKeepsComponent | src/enrollment_graph.rs:187-406 | Integrating a freshly pushed outsider cannot fail, keeps the component invariant, never moves an established anchor, never drops a member, reports its own index, membership and anchor, and promotes exactly the least set closed under seeds and usable edges. |
| GraphFailures.IntegrationFailsExactly | src/enrollment_graph.rs:187-406 | Whatever membership flags the samples were pushed with, an integration with valid arguments fails if and only if a condition on the graph before it holds: the member it attaches through, the newest sample itself, or some counted member of the old or newly founded component has no record to the anchor. |
| EnrollmentFailures.AddFailsExactly | src/enrollment_add.rs:316-466 | For every template any adds can reach, marked samples included: an add fails exactly at capacity or under that condition, always by a missing transform, and the template stays reachable. |
| EnrollmentFailures.ClaimFailsExactly | src/enrollment_add.rs:316-466 | On a consistent template an add below capacity fails if and only if its sample claims membership, a component exists and none of its successful partners is a member; the missing transform is its own. |
| EnrollmentFailures.ClaimConsistentExactly | src/enrollment_add.rs:316-466 | A sample that claims membership leaves a consistent template consistent if and only if it has successful partners and one of them is a member or, without a component, they found one. Otherwise the add reports success with consistency lost, or fails and leaves the sample pushed with its registrations and its claim, the persisted flags not copied. |
| EnrollmentFailures.RunKeepsReachable | src/enrollment_add.rs:316-466 | Every sequence of adds from a reachable template, marked samples and failing adds included, stays within the templates those exact conditions are about. |
| EnrollmentFailures.LaterAddFailsExactly | src/enrollment_graph.rs:366-391 | After a marked first sample a later add fails if and only if it founds a component on another sample that has no usable relation to the first one, unless the first has status 5. |
| EnrollmentFailures.ClaimFails | src/enrollment_add.rs:316-466 | A concrete run of three fresh adds and a marked fourth one that fails and leaves an inconsistent template. |
| EnrollmentFailures.LaterAddFails | src/enrollment_add.rs:316-466 | A concrete run with a marked first sample whose third add fails. |
| GraphProofs.AttachStep | src/enrollment_graph.rs:220-242 | With a component the newest sample joins exactly when some successful previous sample is a member. |
| GraphProofs.EstablishStep | src/enrollment_graph.rs:248-275 | Founding a component makes exactly the newest sample and its strongest partner members, the partner being the anchor. |
| GraphRecords.StrongestIsLastMaximum | src/enrollment_graph.rs:220-257 | The chosen partner is a maximum over the eligible partners and the last one among equals; none is chosen only when none is eligible. |
| GraphRecords.FoundedExactly | src/enrollment_graph.rs:248-275 | A component is founded if and only if the strongest partner has a value above 5 and a score above the threshold; it becomes the anchor and its record keeps its direct value. |
| GraphRecords.AttachedValue | src/enrollment_graph.rs:127-142 | Attachment keeps a non-negative direct value to the anchor and turns an absent one into 0. |
| GraphRecords.PromotedRecordsAreZero | src/enrollment_graph.rs:144-153 | Every promoted sample, direct or through closure, ends with value 0 to the anchor. |
| GraphPoses.IntegrationKeepsPoses | src/enrollment_graph.rs:187-406 | If direct records agree with one assignment of poses, so do all records after integration, and the transforms handed to the novelty metric are exactly those from the newest sample to each counted member. |
| GraphPoses.WritePosed | src/enrollment_graph.rs:78-101 | Writing a source-to-target transform in the stored higher-to-lower direction keeps the table in agreement with the poses. |
| GraphPoses.ReadPosed | src/registration/relations.rs:70-82 | Reading in either direction yields the transform between the two poses. |
| GraphPoses.ExactOpsExist | src/enrollment_graph.rs:86-99 | The exact-arithmetic hypothesis of the pose results is satisfiable: word-wise addition is a model of it. |
| EnrollmentGraph.Enrollment.PushSample | src/enrollment_graph.rs:70-74 | The in-place method appends a sample and leaves everything else. |
| EnrollmentGraph.Enrollment.SetRelation | src/enrollment_graph.rs:78-101 | The in-place method stores the transform in the table direction and reports whether the pair exists. |
| EnrollmentGraph.Enrollment.StoreAnchorRecord | src/enrollment_graph.rs:127-153 | The in-place method marks the sample and rewrites its anchor record only. |
| EnrollmentGraph.Enrollment.StoreCurrentToAnchor | src/enrollment_graph.rs:127-142 | The in-place method is the attachment rule for an existing or absent direct value. |
| EnrollmentGraph.Enrollment.AttachOrFound | src/enrollment_graph.rs:220-275 | The in-place method attaches to the component or founds it, as specified. |
| EnrollmentGraph.Enrollment.PromoteSuccessful | src/enrollment_graph.rs:284-315 | The in-place method is the direct promotion of the successful previous samples. |
| EnrollmentGraph.Enrollment.CloseOverEdges | src/enrollment_graph.rs:324-357 | The in-place method is the worklist closure, which terminates because the set of outsiders shrinks. |
| EnrollmentGraph.Enrollment.ScanEdges | src/enrollment_graph.rs:335-356 | The in-place method scans all candidates once for one expanded sample. |
| EnrollmentGraph.Enrollment.NovelTransforms | src/enrollment_graph.rs:366-391 | The in-place method collects the transforms to all counted members. |
| EnrollmentGraph.Enrollment.IntegrateNewest | src/enrollment_graph.rs:187-406 | The in-place method is the whole integration, errors and partial state included. |
| EnrollmentGraph.Enrollment.CheckArguments | src/enrollment_graph.rs:197-214 | The in-place method reports the first invalid argument in order. |
| EnrollmentProofs.AddKeepsConsistent | src/enrollment_add.rs:316-466 | Adding to a consistent template fails only at capacity and then changes nothing; otherwise it appends one sample, and persisted flags still equal graph flags. Graph errors are unreachable. |
| EnrollmentAdds.AddExactly | src/enrollment_add.rs:316-466 | One add with room for it: which kind it is, that its partners are exactly the previous samples whose registration passes, that they are recorded with inliers and transform, and that then exactly the samples join that the promotion gates reach under the first of the map scores. |
| EnrollmentProofs.RunKeepsConsistent | src/enrollment_add.rs:316-466 | Every sequence of adds keeps the template consistent and only lets it grow: anchor fixed, members kept, earlier content unchanged. |
| EnrollmentProofs.RunKeepsPoses | src/enrollment_add.rs:316-466 | If every accepted registration of a run agrees with one assignment of poses, so does every record of the final table. |
| EnrollmentProofs.EnrolledPosed | src/enrollment_add.rs:316-466 | The same from an empty template on, whose records agree with any poses. |
| EnrollmentProofs.RegistersPassing | src/enrollment_add.rs:362-433 | Registration lists the passing partners in ascending order, where passing is the table of inlier counts and metrics with its literal bounds over the registration of the previous points against the newest; it records inliers and transform of each and leaves every other record alone. |
| EnrollmentProofs.SyncedConsistent | src/enrollment_add.rs:216-226 | Copying the flags makes every persisted flag equal to graph membership. |
| EnrollmentProofs.AcceptsMonotone | src/registration/policy.rs:14-35 | More inliers or better metrics never lose an accepted registration, and five inliers never suffice. |
| EnrollmentTemplate.Template.SyncFlags | src/enrollment_add.rs:216-226 | The in-place method copies every graph flag and equals its specification on the whole state. |
| EnrollmentTemplate.Template.RegisterAll | src/enrollment_add.rs:362-433 | The in-place method registers the newest sample against all previous ones and equals its specification on the whole state. |
| EnrollmentTemplate.Template.AddSample | src/enrollment_add.rs:316-466 | The in-place method is one add, failures included and equals its specification on the whole state. |
| Relations.PairIndexInjective | src/registration/relations.rs:40-51 | Different unordered pairs never share a triangular record. |
| Relations.SetFrame | src/registration/relations.rs:53-68 | A write is seen by reads of the same pair in either order and by no others. |
| Relations.RelationIndicesInvert | src/template_decode.rs:786-795 | Decoding a triangular index inverts computing it, and succeeds exactly below the table size. |
| Relations.PairsInOrder | src/registration/relations.rs:40-51 | The records start at 0 with the pair (1, 0) and run through the lower samples of each row, row by row, without gaps. |
| Relations.CursorCounts | src/enrollment_add.rs:195-207 | The table cursor is 0 for no samples and otherwise one more than the number of pairs. |
| ForestProofs.EverySampleReachesItsRoot | src/template_persistence.rs:226-273 | Every sample is assigned, its parent links are acyclic and end at its group root within as many steps as there are samples, and exactly the roots have no parent. |
| ForestProofs.OnlyWeakAttachmentCutsStrongRelations | src/template_persistence.rs:233-273 | If two samples joined by a relation above 2 end in different groups, the one in the earlier group was attached by the weak fallback. |
| ForestProofs.RootsAreUnrelated | src/template_persistence.rs:261-272 | No two roots have a non-negative relation to each other. |
| ForestUnique.BuildExactly | src/template_persistence.rs:226-273 | The forest described without its construction: roots are the samples no earlier group has taken; a group is expanded depth first, the sample found last coming next and the smallest of those found together, each under the first expanded one it is related to by more than 2, and the rest of the group hangs weakly below the root. A forest is so described if and only if it is the one built. |
| ForestOrder.GrowExpands | src/template_persistence.rs:240-258 | Expanding the waiting samples from the top of the stack expands the whole group in that order. |
| ForestSelection.EmittedIsLinked | src/template_persistence.rs:280-290 | A parent link always passes the encoder checks, so the both-roots and negative-value checks never fire. |
| ForestSelection.SelectionIsTheParentLinks | src/template_persistence.rs:275-299 | The emitted records are exactly the pairs of which one is the parent of the other, each with its triangular index and its own record, in strictly ascending order and with non-negative values. |
| ForestSelection.OneRecordPerChild | src/template_persistence.rs:226-300 | There is one emitted record per sample that is not a root. |
| ForestSelection.SelectPersistentRelations | src/template_persistence.rs:226-300 | The nested loops over group, parent and stack compute the specified selection. |
| ForestSelection.GrowGroup | src/template_persistence.rs:240-259 | The stack loop is the depth-first growth of one group, last pushed first. |
| ForestSelection.ScanStrong | src/template_persistence.rs:242-258 | One scan goes over the candidates from the top down. |
| ForestSelection.AttachWeak | src/template_persistence.rs:261-272 | The fallback goes over the candidates upwards and attaches to the root. |
| ForestSelection.Emit | src/template_persistence.rs:275-299 | The emission goes row by row. |
| PointCodec.UnpackOverlap | src/template_decode.rs:522-543 | For all 16-bit x, y and orientation: exactly which bits the overlapping fields give back. |
| PointCodec.CoordinatesExact | src/template_persistence.rs:142-148 | A coordinate survives packing if and only if its low nibble does not disturb the neighbouring field. |
| PointCodec.PackedFields | src/template_persistence.rs:142-148 | The packed word: x with the top nibble of y above it in the upper half, the middle of y in the next byte, the orientation byte with the low nibble of y in the lowest. |
| PointCodec.OrientationByteIs | src/template_persistence.rs:142-147 | The orientation byte is the upper byte of a positive orientation and that of the magnitude of a negative one, 0x80 further. |
| PointCodec.RoundedPointsSurvive | src/feature.rs:122-135 | Rounded points keep exact coordinates; the normalised orientation survives if and only if the unrounded one lies outside 0x7f80..0x8080, and loads as 0 inside. |
| PointCodec.CoordinateRoundsToNearest | src/feature.rs:122-135 | A coordinate is rounded to a multiple of 16 at most 8 above or 7 below it. |
| PointCodec.OrientationRoundsToNearest | src/feature.rs:122-135 | An orientation is rounded to a multiple of 256 at most 0x80 away, half steps away from zero. |
| TemplateGrammar.DescriptorInverse | src/template_decode.rs:551-566 | Storing and recovering the nibble-permuted descriptor are mutual inverses. |
| TemplateEncoder.EncodePoint | src/template_persistence.rs:139-168 | The 32 bytes written field by field are the layout of the projected point. |
| TemplateRoundTrip.AcceptedIffPrinted | src/template_decode.rs:984-1124 | A byte string is accepted with value t if and only if t is well-formed and the bytes are its printed form. |
| TemplateRoundTrip.DecoderInjective | src/template_decode.rs:984-1124 | No two byte strings decode to the same template. |
| TemplateLayout.AcceptedLayout | src/template_persistence.rs:389-468 | Every accepted raw template, byte by byte: envelope and fifteen leading scalars, then samples, relations, graph section and storage section, each field at its offset under its literal tag, words least significant byte first. |
| TemplateLayout.PlaceSample | src/template_persistence.rs:167-220 | The payload of a sample: maps, mask, point count, points and the scalars 0xb5 to 0xc0, quality under 0xb8 and coverage under 0xb9, the embedded state under 0xc7 only when present. |
| TemplateLayout.PlacePoint | src/template_persistence.rs:139-172 | The 32 bytes of a point: geometry word, the descriptor with the nibbles of bytes k and 8 + k crosswise and the pairs 1, 2, 4 and 7 turned round, and the three hashes. |
| TemplateLayout.PlaceRelation | src/template_persistence.rs:303-317 | The 45 bytes of a relation: index, value and the six transform words under 0xe4 to 0xe9. |
| TemplateProjection.EncodingRefusedFor | src/template_persistence.rs:391-422 | Why encoding fails: the first incomplete sample, else the first one with more than 120 points, else the total length; never the packed size. |
| TemplateRoundTrip.SizeCheckIsDead | src/template_decode.rs:1100-1108 | Once the payload was accepted, the closing size check of the decoder cannot fail. |
| TemplateRoundTrip.SamplePayloadRoundTrip | src/template_decode.rs:619-784 | A printed sample, with or without its optional maps and trailing scalar, parses back to itself. |
| TemplateRoundTrip.RelationRoundTrip | src/template_decode.rs:797-842 | A printed relation parses back with its pair recovered from the triangular index. |
| TemplateRoundTrip.PutPayloadLength | src/template_persistence.rs:302-468 | The size of a payload from its parts, which makes the packed-size invariant hold. |
| TemplateGrammar.ParseSamplePayloadSound | src/template_decode.rs:619-784 | Whatever the sample parser accepts is the printed form of a sample that is well-formed at its position. |
| TemplateGrammar.ParseRelationsSound | src/template_decode.rs:1076-1088 | The accepted relations are well-formed, pairwise distinct and printed exactly as read. |
| TemplateGrammar.ParseSection93Sound | src/template_decode.rs:844-898 | An accepted graph section is the printed form of a consistent anchor summary. |
| TemplateGrammar.ParseSection94Sound | src/template_decode.rs:900-981 | An accepted storage section has exactly the active slots of the sample count and is printed as read. |
| ValidityMask.ExpandedPixel | src/template_decode.rs:609-617 | Every pixel of the rebuilt 40x32 validity mask is the quarter cell that covers its 2x2 block. |
| TemplateDecoder.ReadSamplePayload | src/template_decode.rs:619-784 | The cursor-advancing code reads one sample exactly as the grammar says, failures included. |
| TemplateDecoder.ReadSamples | src/template_decode.rs:1069-1074 | The cursor-advancing code reads all samples exactly as the grammar says, failures included. |
| TemplateDecoder.ReadRelationIndices | src/template_decode.rs:786-795 | The cursor-advancing code reads the row search exactly as the grammar says, failures included. |
| TemplateDecoder.ReadRelation | src/template_decode.rs:797-842 | The cursor-advancing code reads one relation exactly as the grammar says, failures included. |
| TemplateDecoder.ReadRelations | src/template_decode.rs:1076-1088 | The cursor-advancing code reads the relations, with the seen-table always indexed in bounds exactly as the grammar says, failures included. |
| TemplateDecoder.ReadSection93 | src/template_decode.rs:844-898 | The cursor-advancing code reads the graph section exactly as the grammar says, failures included. |
| TemplateDecoder.ReadSection94 | src/template_decode.rs:900-981 | The cursor-advancing code reads the storage section exactly as the grammar says, failures included. |
| TemplateDecoder.ReadHeader | src/template_decode.rs:1024-1067 | The cursor-advancing code reads the fifteen leading scalars exactly as the grammar says, failures included. |
| TemplateDecoder.DecodeRawTemplate | src/template_decode.rs:984-1124 | The cursor-advancing code reads the whole raw template, checks in the order of the code exactly as the grammar says, failures included. |
| TemplateDecoder.Reader.Blob | src/template_decode.rs:481-489 | Taking a blob advances the cursor by exactly what the grammar consumes. |
| TemplateDecoder.Reader.Scalar | src/template_decode.rs:476-479 | Taking a scalar advances the cursor by exactly what the grammar consumes. |
| TemplateProjection.ProjectionWellFormed | src/template_persistence.rs:396-442 | A consistent template projects to a value the decoder accepts if and only if its bound is at most 50 and its splits are in range. |
| TemplateProjection.RelationsProjection | src/template_persistence.rs:302-315 | The projected relations satisfy everything the decoder checks of relations. |
| TemplateEncoder.CollectSamples | src/template_persistence.rs:382-394 | Incomplete samples are reported before anything else, first index first. |
| TemplateEncoder.EncodeSample | src/template_persistence.rs:170-220 | A sample with more than 120 points is refused, any other is laid out as projected. |
| TemplateEncoder.EncodeSamples | src/template_persistence.rs:402-408 | Samples are encoded one by one with their total size. |
| TemplateEncoder.MaxPointCount | src/template_persistence.rs:410-413 | The result is the largest point count but never less than 120. |
| TemplateEncoder.EncodeRelation | src/template_persistence.rs:302-315 | The pushed bytes are the layout of the projected relation. |
| TemplateEncoder.EncodeSection93 | src/template_persistence.rs:317-340 | The pushed bytes are the layout of the graph summary. |
| TemplateEncoder.BuildSlots | src/template_persistence.rs:347-357 | The slot table counts up to the sample count and is -1 behind. |
| TemplateEncoder.EncodeSection94 | src/template_persistence.rs:342-380 | The pushed bytes are the layout of the storage section. |
| TemplateEncoder.EncodePayload | src/template_persistence.rs:396-442 | The pushed payload is the layout of the projection; errors come in the order of the code. |
| TemplateEncoder.EncodeRawTemplate | src/template_persistence.rs:445-468 | The raw template is the printed projection, and the packed-size error cannot occur. |
| TemplateEncoder.Buffer.PushScalar | src/template_persistence.rs:91-94 | The in-place push appends one tagged word in front of whatever is to follow. |
| TemplateEncoder.Buffer.PushBlob | src/template_persistence.rs:96-105 | The in-place push appends a tagged blob, or fails exactly on a length above 32 bits in front of whatever is to follow. |
| TemplateEncoder.Buffer.PushMap | src/template_persistence.rs:107-122 | The in-place push appends the nested map layout in front of whatever is to follow. |
| Tgla.ParsesIffWrapped | src/template_storage.rs:261-458 | A byte string parses as a node for a raw template if and only if wrapping that template yields it. |
| Tgla.WrappedLayout | src/template_storage.rs:261-320 | The bytes of a wrapped node: magic, total size, checksum and raw length as little-endian words, zeros, the version buffer, zeros, the raw template at 132, and four zeros. |
| Tgla.WrapFresh | src/template_storage.rs:261-320 | Writing the populated fields into a zeroed buffer gives the specified node. |
| Tgla.AlteredNodeRejected | src/template_storage.rs:430-440 | No change confined to four consecutive bytes, anywhere in an accepted node, is accepted. |
| Tgla.AlteredRawRejected | src/template_decode.rs:1015-1022 | No change confined to four consecutive bytes, anywhere in an accepted raw template, is accepted. |
| Crc.DetectsWindow | src/firmware.rs:620-636 | Either CRC tells apart two messages that differ only inside four consecutive bytes. |
| CrcCheck.CheckValues | src/firmware.rs:620-636 | Both checksums of the digits 1 to 9, 0x0376e6e7 and 0xcbf43926, and of no bytes at all. |
| Crc.RunInjective | src/firmware.rs:620-636 | The register is an injective function of its start value for every message. |
| Crc.Crc32Mpeg2 | src/firmware.rs:620-636 | The loop on 32-bit words, shifting left from the top bit, computes the checksum of the specification. |
| Crc.RawTemplateCrc32 | src/template_persistence.rs:126-136 | The loop on 32-bit words, shifting right with the masked polynomial and complementing, computes the checksum of the specification. |
| Crc.RunBits | src/template_persistence.rs:126-136 | In either orientation the word loop is one loop on bits in the order they leave, which is what the detection proofs reason about. |
| Protocol.DecodesIffFramed | src/protocol.rs:232-352 | A byte string decodes to a packet if and only if it is the frame of that packet and the packet can be carried. |
| Protocol.DecodesIffOnWire | src/protocol.rs:232-380 | In bytes: a buffer decodes to a packet if and only if it starts with 0xa0, both lengths and the header sum are right, command and payload stand where they belong and, but for images, its last byte is 0x88 or brings everything behind the four outer bytes to 0xaa modulo 256. |
| Protocol.EncodedOnWire | src/protocol.rs:189-286 | Every encoded packet on the wire: its inside sums to 0xaa modulo 256. |
| Protocol.RefusedFor | src/protocol.rs:232-370 | Why a buffer is refused: the first check that fails, with what was expected and what was found. |
| Protocol.EncodeRoundTrip | src/protocol.rs:189-286 | Encoding succeeds exactly up to 65531 payload bytes, and decoding returns command and payload; an image keeps its checksum as last payload byte. |
| Protocol.AcceptedIsCanonical | src/protocol.rs:288-370 | An accepted buffer is the encoding of what it decodes to, up to the 0x88 wildcard trailer and the trailer-less image form. |
| Protocol.InnerTooShortIsDead | src/protocol.rs:289-293 | The inner length error cannot be reached through the outer decoder. |
| Firmware.BlobAcceptedIff | src/firmware.rs:230-282 | A blob is accepted if and only if it is some metadata and a non-empty application sealed with their CRC. |
| Firmware.AlteredBlobRejected | src/firmware.rs:259-267 | No change confined to four consecutive bytes in front of the stored CRC is accepted. |
| Firmware.IntactIffPackaged | src/firmware.rs:351-401 | A byte string passes both CRCs and the length check of a package if and only if it is the package of its application part. |
| Firmware.InstallChunk | src/firmware.rs:443-454 | Writing chunk i behind the first 256*i bytes extends the image by exactly that chunk. |
| Firmware.ChunksExactly | src/firmware.rs:436-454 | The chunks are the 256-byte pieces of the package, each with its offset; only the last one can be shorter. |
| Transport.SendsTransferBlocks | src/firmware.rs:496-542 | Whatever is read, the blocks sent are the first of the padded blocks of all chunks and the check; a finished transfer sent all of them and reports the chunk count. |
| Transport.BlocksExactly | src/transport.rs:884-891 | A frame goes out in as few 64-byte blocks as hold it, byte for byte, with zeros behind its last byte. |
| Waiting.AckExactly | src/transport.rs:627-675 | On any stream: a wait for an acknowledgement ends at the first transfer that is neither empty, nor another command's acknowledgement, nor an unrelated packet; with the flags if that acknowledges the command, with its error otherwise, and in a time-out if there is none. |
| Waiting.PacketExactly | src/transport.rs:575-618 | On any stream: the completion is the first packet of the command, unless a transfer in front of it does not decode. |
| Waiting.CheckPassesExactly | src/firmware.rs:520-542 | The firmware check passes if and only if its completion carries a single byte that is not zero, and that byte is the result. |
| Transport.ReceiveFrame | src/transport.rs:884-891 | Cutting a block stream by declared lengths undoes splitting a frame into padded blocks. |
| Transport.DeviceHoldsPackage | src/firmware.rs:443-468 | A device that reassembles the blocks of a complete transfer sees contiguous offsets and ends up with the whole package and the tag. |
| Transport.PskReadAcceptedIff | src/transport.rs:1044-1099 | A key read yields data if and only if the response carries it, possibly followed by ignored bytes, and it was asked for. |
| GoodixTransport.Link.SendPaddedFrame | src/transport.rs:884-891 | The device-owning method writes a frame as 64-byte blocks, the last one zero-padded. |
| GoodixTransport.Link.WaitForAck | src/transport.rs:627-675 | The device-owning method skips zero-length and unrelated transfers up to the acknowledgement, and fails as specified. |
| GoodixTransport.Link.WaitForCompletion | src/transport.rs:575-618 | The device-owning method waits for the acknowledgement and then the completion. |
| GoodixTransport.Link.TransactFirmware | src/transport.rs:449-465 | The device-owning method sends the frame and returns the completion unchanged. |
| GoodixTransport.Link.SendPackage | src/firmware.rs:496-542 | The device-owning method sends every chunk and then the check, with the specified ending. |
| KeyRead.ObjectIsRead | src/transport.rs:821-876 | Whatever pieces a device cuts its object into, the read returns the object, consumes exactly the answers, and asks once per piece, each time for what is missing from where the previous pieces ended. |
| KeyRead.ReadComesFromDevice | src/transport.rs:821-876 | An object that is read is complete and consists of the pieces that successive responses for this object carried, in stream order, one request for each: nothing is skipped, repeated or invented. |
| KeyRead.RequestAsks | src/transport.rs:1012-1029 | A request always fits one block and decodes to the length, offset and object it was meant for. |
| GoodixTransport.Link.TransactSingle | src/transport.rs:418-428 | The device-owning method sends one padded block and waits for the completion. |
| GoodixTransport.Link.ReadPskObject | src/transport.rs:821-876 | The device-owning loop reads an object as specified, its checked offset addition never overflowing. |
| ColdBootstrap.BeginColdBootstrap | src/bootstrap.rs:335-379 | Over the device the method sends what the specified bootstrap sends and ends as it does: read, open, read the hash, compare, derive the tag, transfer. |
| BootstrapRuns.CompletedRunRefines | src/libfprint_wire.rs:561-691 | A run of the engine that finishes did exactly what the synchronous bootstrap does; behind its key requests it sent exactly the blocks of the transfer under the tag of the two objects this stream held, and a device that reassembles them holds the whole package and the tag. |
| BootstrapRuns.EngineMatchesExactly | src/libfprint_wire.rs:497-691 | Over any stream, from the first key request to the check, the engine and the synchronous bootstrap send the same blocks and end the same way if and only if the sealed key can be opened and the bootstrap is over before the first zero-length transfer or there is none. |
| BootstrapRuns.EngineMatchesBootstrap | src/bootstrap.rs:335-379 | Fed with the stream less its zero-length transfers, the engine does from start to end what the synchronous bootstrap does on the whole stream, if and only if the sealed key, once read, can be opened: the engine opens it only after the hash is read. |
| BootstrapKeyPhase.DriveSealed | src/libfprint_wire.rs:566-590 | The driven engine reads the sealed key with the same requests, the same bytes and the same ending as the synchronous read. |
| BootstrapKeyPhase.DriveHash | src/libfprint_wire.rs:591-617 | The driven engine reads the hash as the synchronous read does and then enters the firmware phase with the tag, or ends with the authentication error. |
| BootstrapRuns.EveryRunSendsAPrefix | src/libfprint_wire.rs:524-548 | Whatever the device sends, the blocks of a run are key requests and then, only if both objects were read from this very stream, the first opens to a key and the second is its hash, the first blocks of the transfer under the tag of that key. |
| BootstrapRuns.EngineMatchesPlainStreams | src/libfprint_wire.rs:497-691 | The common case: on a stream without zero-length transfers whose key can be opened, engine and synchronous bootstrap agree from start to end. |
| BootstrapRuns.EmptyTransferDiffers | src/libfprint_wire.rs:561-691 | A single zero-length transfer is a stream on which they differ. |
| BootstrapRuns.UnopenableKeyDiffers | src/bootstrap.rs:335-345 | A device that hands out a key that cannot be opened makes them differ. |
| BootstrapRefinement.DriveIsTransfer | src/libfprint_wire.rs:618-691 | From the first block of a chunk on, the driven engine and the synchronous transfer send the same blocks and end the same way. |
| BootstrapSafety.StepKeepsValid | src/libfprint_wire.rs:561-691 | Any completed transfer keeps the engine valid; an advance lowers a lexicographic measure, an ignored packet changes nothing, seven errors are unreachable, and only a failed authentication changes state while failing. |
| BootstrapSafety.ActionsSucceed | src/libfprint_wire.rs:497-558 | A reachable engine always has a next action when offered a whole block, and is done exactly when complete. |
| BootstrapSafety.AuthenticatesExactly | src/libfprint_wire.rs:201-222 | Authentication yields a tag if and only if the sealed object opens, the hash is that of the opened key and the tag is derived from it for this package; otherwise the error says which of these failed. |
| BootstrapHistory.NothingWrittenBeforeAuthentication | src/libfprint_wire.rs:201-263 | For any sequence of completed transfers: an engine behind the key phase, and any engine whose next action writes more than a key request, holds a tag, and its inputs contain in order responses that carried all 102 and then all 32 bytes of the two objects, of which the first opens to a key, the second is that key's hash and the tag is that key's for the package; the chunk counters agree, and a result exists exactly on completion. |
| BootstrapSafety.FailedAuthenticationIsFinal | src/libfprint_wire.rs:599-617 | When a step of any run ends in a failed authentication, no further input changes the engine and it never leaves the key phase. |
| BootstrapSafety.StuckForever | src/libfprint_wire.rs:599-617 | An engine whose hash is complete but did not authenticate ignores or rejects every input. |
| BootstrapSafety.EngineAsks | src/libfprint_wire.rs:701-730 | The engine asks exactly as the synchronous read does: its block decodes to a request for the missing bytes, at most 256, at the offset already read. |
| BootstrapSafety.ReadAppendsResponse | src/libfprint_wire.rs:769-793 | A response is appended if and only if it carries exactly that data, at least one byte and no more than was asked for. |
| BootstrapTransfer.BootstrapTransferEngine.DescribeNext | src/libfprint_wire.rs:497-558 | The field-updating method writes only an OUT block into the caller buffer. |
| BootstrapTransfer.BootstrapTransferEngine.CompleteTransfer | src/libfprint_wire.rs:561-691 | The field-updating method is one step on all fields. |
| BootstrapTransfer.BootstrapTransferEngine.FinishPskHash | src/libfprint_wire.rs:599-617 | The field-updating method authenticates on the last hash bytes and wipes both objects. |
| BootstrapTransfer.BootstrapTransferEngine.FinishBlock | src/libfprint_wire.rs:618-634 | The field-updating method moves to the next block or to the acknowledgement. |
| BootstrapTransfer.BootstrapTransferEngine.FinishResponse | src/libfprint_wire.rs:576-691 | The field-updating method handles the four completion stages. |
| Envelope.NeverInverted | src/preprocess.rs:525-680 | At every pixel of every image, borders included, the refined lower bound is at most the refined upper bound. |
| Envelope.UpperDropsExactly | src/preprocess.rs:578-680 | The refined upper bound is below the pixel itself if and only if the cross around some diagonal neighbour holds nothing as bright. |
| Envelope.LonePixelDrops | src/preprocess.rs:578-680 | A concrete image: one bright corner pixel ends above its own upper bound. |
| Envelope.NormalisedAntitone | src/preprocess.rs:682-722 | A brighter pixel never comes out brighter. |
| Envelope.NormalisedEnds | src/preprocess.rs:706-718 | A pixel at or below the lower bound comes out 255, one at or above the upper bound 0. |
| Envelope.NormalisedExactly | src/preprocess.rs:706-718 | The output value is the only one between the bounds: with r the value, (255 - r) times the width is at most 255 times the pixel's distance from the lower bound, which is less than (256 - r) times the width. |
| Envelope.BoundsEnvelop | src/preprocess.rs:525-680 | The computed bounds are the least maximum and the greatest minimum of the crosses of radius 5 around the pixel and its diagonal neighbours. |
| Envelope.HorizontalExtrema | src/preprocess.rs:525-549 | The pixel loop fills minimum and maximum of the row window of every pixel. |
| Envelope.VerticalExtrema | src/preprocess.rs:551-576 | The pixel loop fills minimum and maximum of the column window of every pixel. |
| Envelope.RefineDiagonalBounds | src/preprocess.rs:578-680 | The pixel loop fills both bounds row by row with the diagonals that exist. |
| Envelope.NormaliseImage | src/preprocess.rs:682-722 | The pixel loop writes 255 outside the mask and inside it the value between the bounds: 255 at or below the lower one, 0 at or above the upper one and where they are equal, otherwise 255 minus the position between them rounded down; it counts the foreground pixels whose bounds lie less than 50 apart. |
| Envelope.FinalStage | src/preprocess.rs:178-190 | The pixel loop runs from the smoothed image to the output: with the least cross maximum and the greatest cross minimum, over radius 5, of the pixel and its diagonal neighbours as bounds, which are never inverted, every output value is the one between them, and the narrow ranges are counted. |
| FeaturePartition.PartitionBy | src/feature_enrollment.rs:261-294 | With at most one point of a class above 1 the two-cursor loop ends with a permutation, class 0 in front of everything else and the class-0 count as boundary; with binary polarity, all it is ever given, class 1 follows. |
| FeaturePartition.EndsExactly | src/feature_enrollment.rs:261-294 | Over the scans the two cursor loops compute: the outer loop ends if and only if at most one point is of a class above 1, so binary polarity suffices. |
| SensorImage.RestructureWn2 | src/image.rs:191-236 | Unpacking and transposing writes the specified image, or reports the wrong length. |
| SensorImage.CompactRows | src/image.rs:261-271 | The packed bytes are the first 96 of every row. |
| SensorImage.PixelExactly | src/image.rs:191-236 | Column x of output row y is pixel y of source row x: which of the six bytes from 132 x + 6 (y / 4) on make up its twelve bits. |
| SensorImage.RepackRecovers | src/image.rs:207-231 | Repacking the image recovers every used group of bytes. |
| SensorImage.ReconstructsEqually | src/image.rs:191-236 | Two buffers give the same image if and only if the first 96 bytes of every row agree. |
| SensorImage.EveryImageIsReconstructed | src/image.rs:191-236 | Every image of 12-bit pixels is the reconstruction of some buffer. |
| ChipConfig.ReplaceKeepsSum | src/chicago_h.rs:478-504 | A successful replacement leaves the word sum at 0x5a5b, a failed one changes nothing. |
| ChipConfig.ReplaceAllKeepsSum | src/chicago_h.rs:478-540 | The sum survives any sequence of replacements, failing ones included. |
| ChipConfig.ReplaceTouchesValueAndChecksum | src/chicago_h.rs:478-504 | Below the checksum word only the value and the checksum change, and the value reads back. |
| ChipConfig.ValueKeptExactly | src/chicago_h.rs:478-504 | A replaced value reads back if and only if its record lies in front of the checksum word, or the part it loses happens to equal the checksum bytes written over it. |
| ChipConfig.EveryValueKeptExactly | src/chicago_h.rs:478-504 | Every value reads back if and only if the record lies in front of the checksum word. |
| ChipConfig.OverlappingRecordsLose | src/chicago_h.rs:478-504 | A concrete table with records at 0xfb and 0xfc that lose values. |
| ChipConfig.ResealedSums | src/chicago_h.rs:527-540 | The recomputed word brings the sum to its target, and is the only last word that does. |
| ChipConfig.GeneratedSums | src/chicago_h.rs:234-301 | A generated configuration has its word sum at the target, so the closing check cannot fail. |
| ChipConfig.GeneratedHolds | src/chicago_h.rs:248-283 | All three calibration values read back at their keys: the later replacements do not disturb the earlier ones, and the offset keeps the upper byte of the base table. |
| ChipBase.EveryOtpIsConfigured | src/chicago_h.rs:234-301 | For every accepted OTP the actual base table yields a configuration that sums to the target and holds all three calibration values. |
| ChipBase.GeneratedBytes | src/chicago_h.rs:234-301 | The generated configuration byte by byte: tcode at 235, diff at 200 above 0x80, a non-zero offset plus eight at 179, the base table everywhere else, and a last word that brings the sum to 0x5a5b. |
| ChipBase.BaseChecksum | src/chicago_h.rs:12 | The actual base table has the checksum the generator insists on. |
| ChipBase.BuildBase | src/chicago_h.rs:448-457 | The loop writes the quadwords of the table as little-endian bytes. |
| ChipConfig.RecomputeChecksum | src/chicago_h.rs:527-540 | The scanning loop rewrites the last word only. |
| ChipConfig.ReplaceConfigValue | src/chicago_h.rs:478-504 | The scanning loop replaces the first matching record in place. |
| ChipConfig.FindConfigValue | src/chicago_h.rs:506-520 | The scanning loop returns the value of the first matching record. |
| ChipConfig.FoundExactly | src/chicago_h.rs:506-520 | The record found is the first one of the section, in steps of four bytes, whose first two bytes are the key. |
| ChipConfig.ConfigWordSum | src/chicago_h.rs:542-551 | The scanning loop computes the wrapping sum of all words. |
| ChipConfig.CalibrationIdentifiesSource | src/chicago_h.rs:354-409 | Nothing of the source byte is lost: accepted OTPs have the same tcode and diff if and only if they have the same source byte. |
| ChipConfig.CalibrationRanges | src/chicago_h.rs:354-409 | For every accepted OTP tcode is in 80..320 and diff at most 113, so the mask and the shift lose nothing. |
| ChipConfig.CalibrationExactly | src/chicago_h.rs:354-409 | An OTP is accepted if and only if its copies of the source byte are equal and not zero and the offset has a majority; tcode is 16 times the upper nibble plus 80, and diff the quotient of 25600 times the lower nibble plus two by 48 times tcode, rounded down. |
| ChipConfig.FdtOffsetIsMajority | src/chicago_h.rs:413-425 | The decoded offset is the value at least two of the three copies agree on: bits 0 and 1, the complement of bits 2 and 3, and bits 4 and 5. |

## Left out

- The Q8 rounding of affine composition and inversion: the pose results hold for exact arithmetic only; every other result holds for arbitrary transform arithmetic.
- Point registration, map scoring, the novelty metric and feature extraction: arbitrary functions, nothing is claimed about their values.
- EnrollmentProofs.RunKeepsConsistent: assumes inputs that do not already claim membership, as every extracted feature guarantees; what happens otherwise is stated exactly by `EnrollmentFailures`.
- FeatureEnrollment.FromExtraction: the rejection of a validity map that is not binary and the failures of preparing the maps are not modelled; the maps and the packed quarter mask are inputs.
- EnrollmentProofs.RunKeepsPoses: assumes exact transform arithmetic, because rounding makes the composed transforms drift.
- FeaturePartition.PartitionBy: requires at most one point of a class above 1, because by EndsExactly the loop does not end otherwise; its only caller passes binary polarity.
- ChipConfig.GeneratedSums: takes any base table whose two sections lie inside it; `ChipBase` has the results for the actual table.
- The add that keeps no persistent state produces incomplete entries; they are modelled only as the encoder error they cause.
- Registration attempt diagnostics, error offsets and context strings, display text.
- The expansion of the quarter validity mask is a function, not the two loops of the code.
- The CRC-8 sections of the OTP, and the reading of the OTP.
- The comparison of the firmware resource with its recorded sizes and checksums, and its metadata text: the engine is proved for every package.
- ColdBootstrap.BeginColdBootstrap: takes the package already built from the firmware resource, and omits the version check in front and the reset behind.
- Timeouts, sleeps, trace output and USB enumeration: a stream of IN transfers that ends stands for a deadline that passes.
- Endpoint numbers, timeout values and the short-transfer flag of an action.
- AES, HMAC and SHA-256, and the sealed-key format.
- Image decryption, the protected-image envelope and the 8-bit preview normalisation.
- The stages of preprocessing before the smoothed image.
- The capture, recovery and post-boot engines, the verification workflow, the C bridge and the command line.
