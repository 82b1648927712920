# A verified model of the Fancy Mumble voice path

This project models, in Dafny, the parts of the Fancy Mumble client in which state, arithmetic and
ordering matter, and proves what they promise over all inputs and whole runs.

| file | what it models |
|---|---|
| `Bytes.dfy` | octets, counters in both byte orders and the ripple carry of the nonces |
| `Gf128.dfy` | 16-byte blocks as polynomials over GF(2); the in-place doubling and tripling loops |
| `Ocb2Mode.dfy` | the OCB2 block mode over any block permutation (clause 6 of ISO/IEC 19772:2009 describes the mode; the program uses a non-standard variant) |
| `Ocb2Definition.dfy` | what an OCB2 ciphertext and tag are, told by the inverse cipher and products in GF(2^128) |
| `Ocb2State.dfy` | `Ocb2CryptState`: nonces, 256-slot history, packet counters |
| `Ocb2Runs.dfy` | runs of the receiver over arbitrary datagrams |
| `Ocb2Delivery.dfy` | an honest sender over a network that loses, delays, reorders and repeats |
| `Ocb2Session.dfy` | two cipher objects exchanging packets |
| `UdpResync.dfy` | the UDP reader task with its nonce resync |
| `SpeakerQueue.dfy`, `AudioMixer.dfy` | per-speaker decoding into capped sample queues |
| `SpeakerStream.dfy` | what is heard of a stream, told by its packets and the codec |
| `SpeakerDrain.dfy` | draining and summing the queues |
| `MixerSource.dfy` | the playback source: priming, back-off, fade-out, ramp-in |
| `TcpFraming.dfy` | control frames and the incremental reader |
| `AudioCodec.dfy` | the Mumble varint and the legacy audio packet |
| `Fuzzy.dfy`, `FuzzyTrace.dfy` | the fuzzy matcher, and its exact score |
| `PingStats.dfy` | running mean and variance |

Objects whose methods update fields in place are classes, loops over buffers are methods over arrays, and each is
proved against a function on values; the theorems are about those functions. For each of the main operations one
theorem gives its outcome for every input without using that function's parts: `SealIsOcb2` and `OpenIsOcb2` for the
block mode, `ReceiveExactly` for a datagram, `RunConsumes` for the UDP reader, `FeedExactly` for the mixer,
`PlaysInOrder`, `FadesOutExactly`, `RampsInExactly` and `PacesExactly` for the playback source, `DecodeExactly` for
frames and packets, `ReadExactly` for varints, `MatchScoresExactly` for the matcher.

Three conventions run through the cipher files. AES is any pair of functions on blocks; only the round trip needs
them to be each other's inverse. A receiver is followed as an unbounded counter whose 16 low octets are the nonce
(`Nonce`), so a lap is one turn of nonce byte 0. Theorems about runs take the receiver as a function value `step`
with a law: `ReceiverIsLawful` and `OcbDelivers` show that the modelled receiver obeys the laws, without further
assumptions and for every block permutation respectively.

## Where code and documentation differ

* The history of a fresh key is filled with the complement of the second nonce byte so that "the first check always
  passes" (crates/mumble-protocol/src/transport/ocb2.rs:118-120). It does not when that byte is 127 or 255 and byte 0
  wraps: `FirstPacketRefused` gives a nonce for which the very first packet is refused, `LossFreeRun` the exact condition.
* `late` is documented as the number of out-of-order packets (crates/mumble-protocol/src/transport/ocb2.rs:30-31). The
  update lowers it again for the same packet: `PacketsConserved` shows that it only tells whether there was one,
  `TwoLateCountAsOne` is a run with two, and `LateCounterExact` says when it is right.
* `encode` frames payloads over 8 MiB that `decode` refuses, and cuts the length field to 32 bits: `FrameRoundTrip`
  has the exact condition.
* The legacy packet keeps only 13 bits of the payload length: `RelayedRoundTrip` has the exact condition.
* An underrun is said to fade out from the amplitude held when it began (crates/mumble-tauri/src/audio/rodio_desktop.rs:434-437). When it
  begins inside the ramp out of an earlier one, it goes on with the earlier fade-out: `InterruptedRampJumps` is such a
  run, `UnderrunAnchors` the exact condition.
* Results above the cutoff are said to be discarded (crates/fancy-utils/src/fuzzy.rs:23). A contiguous occurrence never looks at
  the cutoff: `AboveCutoff` is an input, `CutoffExactly` the exact condition.
* The 60 percent rule of the fuzzy matcher never decides anything: `MatchBounds`.

## Model

| member | source | states |
|---|---|---|
| `Bytes.IncrementCounts` | crates/mumble-protocol/src/transport/ocb2.rs:147-153 | the carry loop adds one to the 128-bit little-endian counter, through every carry and the final wrap |
| `Gf128.DoubleInPlace` | crates/mumble-protocol/src/transport/ocb2.rs:287-293 | the loop over the mutable block leaves `Double` of the old block |
| `Gf128.TripleInPlace` | crates/mumble-protocol/src/transport/ocb2.rs:295-301 | the loop leaves the old block xor its double |
| `Gf128.XorInPlace` | crates/mumble-protocol/src/transport/ocb2.rs:309-313 | the loop leaves the xor of the two blocks |
| `Gf128.XorAt` | crates/mumble-protocol/src/transport/ocb2.rs:303-313 | each byte of the xor of two blocks is the xor of their bytes |
| `Gf128.DoubleIsProductByX` | crates/mumble-protocol/src/transport/ocb2.rs:282-293 | a block is the double of b if and only if it is the remainder of x times b modulo x^128+x^7+x^2+x+1 |
| `Gf128.TripleIsProductByXPlus1` | crates/mumble-protocol/src/transport/ocb2.rs:295-301 | the same for the product by x+1 |
| `Gf128.DoubleIsLinear` | crates/mumble-protocol/src/transport/ocb2.rs:287-293 | doubling commutes with xor |
| `Gf128.DoubleIsInjective` | crates/mumble-protocol/src/transport/ocb2.rs:287-293 | different blocks have different doubles |
| `Ocb2Mode.OcbEncrypt` | crates/mumble-protocol/src/transport/ocb2.rs:328-395 | the in-place routine writes the ciphertext and tag of the indexed reference form `Seal`, which `SealIsOcb2` characterises |
| `Ocb2Mode.OcbDecrypt` | crates/mumble-protocol/src/transport/ocb2.rs:398-460 | the in-place routine writes the plaintext and tag of the reference form `Open`, which `OpenIsOcb2` characterises |
| `Ocb2Mode.OpenAfterSeal` | crates/mumble-protocol/src/transport/ocb2.rs:328-460 | for every length, nonce and block permutation, decrypting what was encrypted gives the plaintext and the same full tag |
| `Ocb2Mode.SealAfterOpen` | crates/mumble-protocol/src/transport/ocb2.rs:328-460 | encrypting what was decrypted gives back the ciphertext and tag: a bijection on each length |
| `Ocb2Definition.SealIsOcb2` | crates/mumble-protocol/src/transport/ocb2.rs:328-395 | text and tag are those of encryption if and only if: the inverse cipher takes each masked ciphertext block to the plaintext block masked with the same offset, the offsets being the encrypted nonce times x, x^2, ...; the last bytes are masked with the encryption of the last offset and the bit length; and the inverse cipher takes the tag to the xor of all plaintext blocks, the last filled from the pad, and of the last offset times x+1 |
| `Ocb2Definition.OpenIsOcb2` | crates/mumble-protocol/src/transport/ocb2.rs:398-460 | plaintext and tag are those of decryption if and only if the given text and that tag are the OCB2 ciphertext and tag of the plaintext |
| `Ocb2Definition.TagsAgree` | crates/mumble-protocol/src/transport/ocb2.rs:344-395 | under one nonce two plaintexts of one length have equal tags if and only if their bytes agree in xor at each of the 16 positions in the block |
| `Ocb2State.IncrementInPlace` | crates/mumble-protocol/src/transport/ocb2.rs:462-469 | the carry loop over the nonce array from a given byte on is `Increment` of those bytes |
| `Ocb2State.Ocb2CryptState.constructor` | crates/mumble-protocol/src/transport/ocb2.rs:83-93 | a new state is not initialised and has zero counters |
| `Ocb2State.Ocb2CryptState.SetKey` | crates/mumble-protocol/src/transport/ocb2.rs:100-123 | succeeds exactly for 16-byte key and nonces; then the receiver is `Fresh` at the server nonce; otherwise nothing changes and the error says which |
| `Ocb2State.Ocb2CryptState.SetDecryptIv` | crates/mumble-protocol/src/transport/ocb2.rs:127-131 | replaces the receive nonce and nothing else; a nonce of another length is ignored |
| `Ocb2State.Ocb2CryptState.Encrypt` | crates/mumble-protocol/src/transport/ocb2.rs:140-172 | advances the send nonce by one and returns the 4-byte header and ciphertext under it; an uninitialised state refuses |
| `Ocb2State.Ocb2CryptState.Place` | crates/mumble-protocol/src/transport/ocb2.rs:187-229 | the byte comparisons and signed distance rebuild the nonce that `Locate` describes on numbers, with the late and lost amounts |
| `Ocb2State.Ocb2CryptState.Count` | crates/mumble-protocol/src/transport/ocb2.rs:263-272 | the counter updates in their order give `Credit` |
| `Ocb2State.Ocb2CryptState.Decrypt` | crates/mumble-protocol/src/transport/ocb2.rs:174-275 | result and whole new state (nonce, history, counters) are those of `Receive`, whose outcome `ReceiveExactly` and effect `ReceiverIsLawful` give for every datagram |
| `Ocb2State.BranchesByNumbers` | crates/mumble-protocol/src/transport/ocb2.rs:194-224 | each byte test of the receiver as a condition on numbers |
| `Ocb2State.OcbUndoes` | crates/mumble-protocol/src/transport/ocb2.rs:328-460 | with a block permutation, opening undoes sealing under every nonce |
| `Ocb2Runs.RebuildsExactlyInWindow` | crates/mumble-protocol/src/transport/ocb2.rs:194-229 | the sender's exact 16-byte nonce is rebuilt if and only if the packet is the next one or less than 30 away on the same lap |
| `Ocb2Runs.ReceiverIsLawful` | crates/mumble-protocol/src/transport/ocb2.rs:174-275 | every datagram that is authentic under no counter in the window changes nothing; every other one is decrypted under its own nonce, was not on record, goes on record, moves the nonce only forward and is counted |
| `Ocb2Runs.ReceiveAs` | crates/mumble-protocol/src/transport/ocb2.rs:232-254 | a datagram with the byte of a packet in the window is refused as a replay when its slot holds that packet's second byte, else refused as forged when the three tag bytes are not those computed under that packet's nonce, else decrypted |
| `Ocb2Runs.ReceiveExactly` | crates/mumble-protocol/src/transport/ocb2.rs:183-254 | a datagram is accepted if and only if it has 4 bytes, its byte is that of a packet in the window not on record, and its tag bytes are those computed under that packet's full nonce; and exactly when each error is returned |
| `Ocb2Runs.AcceptedStep` | crates/mumble-protocol/src/transport/ocb2.rs:233-272 | an accepted datagram was authentic and opened under the nonce of its counter, and obeys the step law |
| `Ocb2Runs.Delivered` | crates/mumble-protocol/src/transport/ocb2.rs:183-261 | an honest packet in the window gives back what was sent unless its slot holds its second byte |
| `Ocb2Runs.PacketsConserved` | crates/mumble-protocol/src/transport/ocb2.rs:194-272 | over every run good + lost = advance of the nonce + accepted late packets; good counts the accepted ones; late is exactly whether there was one |
| `Ocb2Runs.LateCounterExact` | crates/mumble-protocol/src/transport/ocb2.rs:265-272 | the late counter is the number of late packets if and only if that is at most one |
| `Ocb2Runs.NoCounterTwice` | crates/mumble-protocol/src/transport/ocb2.rs:232-256 | whatever datagrams arrive, no counter is accepted twice in a run, nor one already on record |
| `Ocb2Runs.NoNonceTwice` | crates/mumble-protocol/src/transport/ocb2.rs:232-256 | no full nonce is accepted twice until the 128-bit counter wraps |
| `Ocb2Runs.RejectedLeaveNoTrace` | crates/mumble-protocol/src/transport/ocb2.rs:183-254 | deleting all rejected datagrams leaves outputs and final state the same |
| `Ocb2Runs.ForgeriesHaveNoEffect` | crates/mumble-protocol/src/transport/ocb2.rs:249-254 | datagrams that fail the tag under every nonce, mixed into a run at any places, change neither the plaintexts handed on nor the final state |
| `Ocb2Delivery.OcbDelivers` | crates/mumble-protocol/src/transport/ocb2.rs:140-275 | the modelled sender and receiver obey the delivery law for every block permutation |
| `Ocb2Delivery.WindowDelivery` | crates/mumble-protocol/src/transport/ocb2.rs:183-261 | for every schedule of losses, delays, reorderings and repeats inside the window, each arrival yields its plaintext or a replay error as the history says, and the nonce ends at the newest accepted packet |
| `Ocb2Delivery.ExactlyOnce` | crates/mumble-protocol/src/transport/ocb2.rs:114-121 | from a fresh key, until the second nonce byte reaches the fill, an arrival in the window is accepted if and only if it has not arrived before |
| `Ocb2Delivery.NextRefused` | crates/mumble-protocol/src/transport/ocb2.rs:232-236 | with all 256 slots known, the next packet of a loss-free run is refused exactly on the lap after the first, when the fill is that lap's byte |
| `Ocb2Delivery.LossFreeRun` | crates/mumble-protocol/src/transport/ocb2.rs:114-261 | a loss-free run of any length delivers everything and ends with equal nonces if and only if it is not the case that the fill is the next lap's byte and the run leaves its lap |
| `Ocb2Delivery.ResyncRecovers` | crates/mumble-protocol/src/transport/ocb2.rs:598-639 | after a resync to the sender's nonce the next packet is decrypted unless its slot holds its second byte |
| `Ocb2Delivery.FirstPacketRefused` | crates/mumble-protocol/src/transport/ocb2.rs:118-120 | a start nonce for which the first packet after a key exchange is refused |
| `Ocb2Delivery.TwoLateCountAsOne` | crates/mumble-protocol/src/transport/ocb2.rs:265-272 | a run with two late packets that leaves the late counter at one |
| `Ocb2Session.Exchange` | crates/mumble-protocol/src/transport/ocb2.rs:548-566 | two cipher objects: encrypting and decrypting packet by packet delivers all plaintexts and ends with equal nonces, under the exact condition of `LossFreeRun` |
| `UdpResync.Handle` | crates/mumble-protocol/src/client.rs:1053-1142 | one event changes cipher state, failure count, cooldown, log and whether the task runs on as `React` says, which `RunsOnExactly` gives from the log alone |
| `UdpResync.ReaderLoop` | crates/mumble-protocol/src/client.rs:1048-1143 | log and final cipher state are those of following the events up to the first one that ends the task; requests are paced and at most one in 50 failures |
| `UdpResync.RunsOnExactly` | crates/mumble-protocol/src/client.rs:1053-1142 | with the counters always carrying what the log shows, an event has the effect that the log alone prescribes, and the task runs on if and only if the event is none of: closed resync channel, closed socket, read error, delivered datagram with a closed queue, overdue failure with the outbound channel gone |
| `UdpResync.RunConsumes` | crates/mumble-protocol/src/client.rs:1048-1143 | every run takes in exactly the events up to the first one that ends it, and is still going if and only if there is none |
| `UdpResync.EveryEventCounts` | crates/mumble-protocol/src/client.rs:1088-1125 | over every list of events each datagram is delivered or noted as a failure and each server nonce is applied |
| `UdpResync.HandsOnWhatIsAccepted` | crates/mumble-protocol/src/client.rs:1088-1142 | between server nonces the plaintexts handed on are exactly the ones that the receiver accepts, in order, and the receiver is left as those datagrams leave it |
| `UdpResync.RequestsExactlyWhenDue` | crates/mumble-protocol/src/client.rs:1096-1122 | a request goes out on exactly the failures that are the 50th or later in a row, 5 s after the last request, with room in the channel |
| `UdpResync.RunIsPaced` | crates/mumble-protocol/src/client.rs:1041-1125 | over every run each request follows 50 failures in a row and 5 s without one, and 50 times the requests never exceed the failures |
| `UdpResync.RequestsApart` | crates/mumble-protocol/src/client.rs:1041-1047 | two successive requests are more than 50 log entries and at least 5 s apart |
| `UdpResync.NonceEndsFailures` | crates/mumble-protocol/src/client.rs:1055-1064 | after the sender's nonce has been applied its next datagram is delivered unless its slot holds its second byte |
| `SpeakerQueue.QueueConserves` | crates/mumble-protocol/src/audio/mixer.rs:311-363 | over every run all samples ever appended are, in order, the ones that left and the ones still queued; the cap of 19,200 holds |
| `SpeakerQueue.SilenceRemovesNothing` | crates/mumble-protocol/src/audio/mixer.rs:311-336 | gap silence keeps the whole queue as a prefix and appends only zeros, as many as requested up to the cap of 19,200 |
| `SpeakerQueue.PushEvictsOldest` | crates/mumble-protocol/src/audio/mixer.rs:338-363 | a frame evicts exactly the oldest samples over the cap and is not itself cut when it fits |
| `AudioMixer.CertainGap` | crates/mumble-protocol/src/audio/mixer.rs:275-286 | silence is due exactly when a packet is more than 8 units past the expected one: as many units as are missing, at most 40 |
| `AudioMixer.SpeakerBuffers.InsertSilence` | crates/mumble-protocol/src/audio/mixer.rs:311-336 | the push loop leaves `WithSilence` of the session's queue and all other queues |
| `AudioMixer.SpeakerBuffers.PushSamples` | crates/mumble-protocol/src/audio/mixer.rs:338-363 | leaves `Pushed` of the session's queue and all other queues |
| `AudioMixer.ApplyFadeIn` | crates/mumble-protocol/src/audio/mixer.rs:416-434 | the loop scales the first 240 samples by their weights and leaves the rest |
| `AudioMixer.FadeInNeverAmplifies` | crates/mumble-protocol/src/audio/mixer.rs:416-434 | no sample gets louder and none past the fade changes |
| `AudioMixer.ApplyCrossfade` | crates/mumble-protocol/src/audio/mixer.rs:368-406 | the loop shifts the first 24 samples by the decaying correction, or leaves a close frame alone |
| `AudioMixer.SpeakerMixer.Feed` | crates/mumble-protocol/src/audio/mixer.rs:124-205 | decoder state, queues and success afterwards are those of `Apply`, decode errors included; `FeedExactly` gives the samples |
| `AudioMixer.SpeakerMixer.ResetSpeaker` | crates/mumble-protocol/src/audio/mixer.rs:230-232 | drops the session's decoder and keeps its queue |
| `AudioMixer.SpeakerMixer.RemoveInactiveSpeakers` | crates/mumble-protocol/src/audio/mixer.rs:236-251 | drops decoder and queue of exactly the sessions silent for over 30 s |
| `AudioMixer.SpeakerMixer.Reset` | crates/mumble-protocol/src/audio/mixer.rs:254-259 | drops everything |
| `AudioMixer.SpeakersAreIsolated` | crates/mumble-protocol/src/audio/mixer.rs:124-259 | after any interleaved run each session holds what the operations that concern it alone would have left |
| `AudioMixer.SpeakerQueuesConserve` | crates/mumble-protocol/src/audio/mixer.rs:124-363 | from an empty mixer, for every run and session: appended = left + queued, in order, and the queue is within the cap |
| `SpeakerStream.MixerFollowsStreams` | crates/mumble-protocol/src/audio/mixer.rs:124-259 | after every run a session has a decoder exactly when a stream is under way; it has seen exactly the packets since the last restart, reset or timeout, and last sequence, expected sequence, pending fade-in and armed crossfade are those that these packets determine |
| `SpeakerStream.FeedGains` | crates/mumble-protocol/src/audio/mixer.rs:149-206 | per sample, with the codec's frame: nothing is changed in a continuing stream, the first decoded frame is scaled by the fade-in weights over 240 samples, a frame after gap silence is shifted by its first sample times the decay over 24 samples unless that is within 0.002 of zero; before it comes the gap silence, and the newest 19,200 samples stay |
| `SpeakerStream.FeedExactly` | crates/mumble-protocol/src/audio/mixer.rs:124-206 | after every run of the mixer a packet has that effect on its own session's queue, succeeds exactly when the codec decodes it, and leaves all other sessions alone |
| `SpeakerStream.ContinuousStreamIsUntouched` | crates/mumble-protocol/src/audio/mixer.rs:186-205 | a stream of any length without certain gaps or decode errors is queued as its decoded frames one after the other, sample for sample, while there is room |
| `SpeakerStream.FadeInAt` | crates/mumble-protocol/src/audio/mixer.rs:416-434 | sample i of a faded frame is the sample times its weight before the end of the fade and unchanged after it |
| `SpeakerStream.ShiftAt` | crates/mumble-protocol/src/audio/mixer.rs:386-399 | sample i of a crossfaded frame is shifted by the correction times its weight before the end and unchanged after it |
| `SpeakerStream.FrameUnitsExact` | crates/mumble-protocol/src/audio/mixer.rs:294-299 | a frame counts as its whole 10 ms units, rounded down, at least one |
| `SpeakerDrain.AddSpeaker` | crates/mumble-tauri/src/audio/desktop.rs:273-285 | reading a ring buffer as two slices, cut anywhere, adds the plain first n samples times the volume |
| `SpeakerDrain.BatchDrain` | crates/mumble-tauri/src/audio/desktop.rs:255-291 | for any order of the speakers: the mix is the sum over speakers of volume times sample, each queue loses its first min(length, needed) samples, the counts are the maxima |
| `SpeakerDrain.MixSumPick` | crates/mumble-tauri/src/audio/desktop.rs:266-287 | the sum does not depend on which speaker is taken first |
| `SpeakerDrain.MixSumIs` | crates/mumble-tauri/src/audio/desktop.rs:266-287 | each speaker adds its sample times its volume, its plain sample without a volume entry, and nothing past the end of its queue |
| `SpeakerDrain.SilentPastEnd` | crates/mumble-tauri/src/audio/desktop.rs:250-254 | past the valid count the mix is zero |
| `MixerSource.MumbleMixerSource.RefillChunk` | crates/mumble-tauri/src/audio/rodio_desktop.rs:306-357 | state and queues after a refill are those of `Refilled`: lock failure, priming, empty and filled; `PlaysInOrder` and `PacesExactly` say what that means |
| `MixerSource.MumbleMixerSource.Next` | crates/mumble-tauri/src/audio/rodio_desktop.rs:362-470 | state, queues and returned sample of one pull are those of `Pulled`; `FadesOutExactly` and `RampsInExactly` give the level |
| `MixerSource.PlaysInOrder` | crates/mumble-tauri/src/audio/rodio_desktop.rs:306-470 | over any interleaving with producers the raw samples played are, in order, the sums over the speaker queues that each refill drains, as many as the longest queue has up to 960; none is skipped or replayed |
| `MixerSource.LoneSpeakerIsDrainedPlain` | crates/mumble-tauri/src/audio/rodio_desktop.rs:326-354 | with one speaker at plain volume a refill plays exactly the samples that it takes from the queue |
| `MixerSource.NeverLouderThanRaw` | crates/mumble-tauri/src/audio/rodio_desktop.rs:398-470 | with weights in [0,1] the pre-clip level never exceeds the loudest raw sample so far |
| `MixerSource.RunKeepsSteady` | crates/mumble-tauri/src/audio/rodio_desktop.rs:306-371 | in every run primed implies fewer than 300 empty refills in a row, a pending back-off implies an empty chunk, and each empty refill stands for 241 starved pulls |
| `MixerSource.ReprimeNeedsLongStarvation` | crates/mumble-tauri/src/audio/rodio_desktop.rs:339-348 | in every run from a new source, playback is given up only after 72,060 pulls in a row without a sample |
| `MixerSource.StartsOnlyWhenFilled` | crates/mumble-tauri/src/audio/rodio_desktop.rs:315-324 | playback starts exactly on a refill that finds a queue of 4,800 samples, and plays at once |
| `MixerSource.FailedRefillsAreApart` | crates/mumble-tauri/src/audio/rodio_desktop.rs:367-371 | over every run 241 times the failed refills is at most the pulls plus the remaining back-off |
| `MixerSource.PacesExactly` | crates/mumble-tauri/src/audio/rodio_desktop.rs:306-371 | a playing source stops exactly on the 300th empty refill since its last sample, a failed lock or unfilled queue being none; the back-off falls by one each pull and starts at 240 after every refill that brings nothing |
| `MixerSource.CountsEmptyRefills` | crates/mumble-tauri/src/audio/rodio_desktop.rs:338-356 | in every run the counter is the number of empty refills since the last raw sample |
| `MixerSource.GivesUpExactly` | crates/mumble-tauri/src/audio/rodio_desktop.rs:338-348 | when the queues run dry under a playing source it falls back to waiting for a filled queue at pull 72,060, neither earlier nor later |
| `MixerSource.RampEnds` | crates/mumble-tauri/src/audio/rodio_desktop.rs:402-430 | a ramp takes at most 480 raw samples in a row; after them the raw mix itself is played |
| `MixerSource.RampsInExactly` | crates/mumble-tauri/src/audio/rodio_desktop.rs:400-431 | over every run of raw samples after an underrun the level is the previous one blended with the raw mix by the weights of a ramp as long as the underrun, at least 48 and at most 480; from there on it is the raw mix |
| `MixerSource.SettledPlaysRaw` | crates/mumble-tauri/src/audio/rodio_desktop.rs:426-432 | out of underrun and ramp, every sample played is the raw mix |
| `MixerSource.FadesOutExactly` | crates/mumble-tauri/src/audio/rodio_desktop.rs:433-467 | an underrun of any length fades from the level held before it: its n-th sample is that level times the n-th weight, zero from 960 on |
| `MixerSource.UnderrunAnchors` | crates/mumble-tauri/src/audio/rodio_desktop.rs:449-458 | an underrun starts its fade-out at the level held if and only if no ramp is under way; otherwise it goes on with the interrupted one |
| `MixerSource.InterruptedRampJumps` | crates/mumble-tauri/src/audio/rodio_desktop.rs:434-466 | starved, one raw sample, starved again: the level jumps back to the first fade-out, whatever that raw sample was |
| `TcpFraming.TcpReader.DecodeFrame` | crates/mumble-protocol/src/transport/codec.rs:32-56 | buffer and result are those of `Decode`; a frame with a bad payload is consumed, an oversized one is not |
| `TcpFraming.TcpReader.Receive` | crates/mumble-protocol/src/transport/tcp.rs:146-157 | the loop ends, with buffer, stream and result of `Recv` |
| `TcpFraming.DecodeIsStable` | crates/mumble-protocol/src/transport/codec.rs:32-56 | what a buffer already shows does not change when bytes are added |
| `TcpFraming.FrameRoundTrip` | crates/mumble-protocol/src/transport/codec.rs:17-56 | a frame is read back with nothing after it touched if and only if its payload is at most 8 MiB |
| `TcpFraming.NumbersAreBigEndian` | crates/mumble-protocol/src/transport/codec.rs:37-38 | the header numbers are read most significant byte first |
| `TcpFraming.EncodedLayout` | crates/mumble-protocol/src/transport/codec.rs:17-26 | a frame is the type in 2 bytes and the payload length in 4, most significant byte first, and the payload |
| `TcpFraming.DecodeExactly` | crates/mumble-protocol/src/transport/codec.rs:32-56 | for every announced type and length and every following bytes: refused over 8 MiB with nothing consumed, waited for while short, otherwise consumed with the header and handed to the deserialiser |
| `TcpFraming.EveryBufferIsCovered` | crates/mumble-protocol/src/transport/codec.rs:32-38 | every buffer of 6 bytes or more starts with such a header; a shorter one is kept |
| `TcpFraming.ChunkingDoesNotMatter` | crates/mumble-protocol/src/transport/tcp.rs:146-157 | for every byte stream, malformed or not, and every cut into non-empty chunks, successive calls return the frames of the uncut stream and stop for the same reason |
| `TcpFraming.RecvStopsAt` | crates/mumble-protocol/src/transport/tcp.rs:146-157 | a connection that ends or breaks inside a frame, after any chunks, gives that error and keeps the bytes that had come |
| `TcpFraming.RecvLooksNoFurther` | crates/mumble-protocol/src/transport/tcp.rs:148-151 | a frame complete within some chunks is returned without a look at what follows them |
| `TcpFraming.StreamRoundTrip` | crates/mumble-protocol/src/transport/codec.rs:17-56 | every list of messages up to 8 MiB, cut anyhow, is received as that list; then the stream has ended and the buffer is empty |
| `AudioCodec.VarintRoundTrip` | crates/mumble-protocol/src/transport/audio_codec.rs:58-170 | for every 64-bit value and any following bytes, reading what was written gives value and length |
| `AudioCodec.ReadExactly` | crates/mumble-protocol/src/transport/audio_codec.rs:58-134 | for every byte string: the range of the first byte gives the number of bytes that follow, and the value is the big-endian number of its low bits and those bytes; truncated and unknown prefixes fail |
| `AudioCodec.WriteIsShortest` | crates/mumble-protocol/src/transport/audio_codec.rs:58-170 | no accepted encoding of a value is shorter than the written one |
| `AudioCodec.WriteVarint` | crates/mumble-protocol/src/transport/audio_codec.rs:137-170 | the pushes append `Write` of the value |
| `AudioCodec.EncodePacket` | crates/mumble-protocol/src/transport/audio_codec.rs:200-222 | builds the packet `Encode` |
| `AudioCodec.DecodePacket` | crates/mumble-protocol/src/transport/audio_codec.rs:224-282 | the advancing position finds what `Decode` finds field by field, or fails with it |
| `AudioCodec.RelayedRoundTrip` | crates/mumble-protocol/src/transport/audio_codec.rs:200-282 | with the session put in after the header a packet decodes to the same frame number, terminator and low target bits, and to the same payload if and only if that has under 8192 bytes |
| `AudioCodec.DecodeExactly` | crates/mumble-protocol/src/transport/audio_codec.rs:224-282 | a header, three varints and a rest decode if and only if the type is 4 and the rest covers the low 13 bits of the length field; the fields are the header's low 5 bits, the session modulo 2^32, the frame number, that much of the rest, and bit 13 |
| `AudioCodec.OnlyLaidOutDecodes` | crates/mumble-protocol/src/transport/audio_codec.rs:224-282 | nothing but such a layout decodes |
| `Fuzzy.FuzzyMatchChars` | crates/fancy-utils/src/fuzzy.rs:58-125 | the loop and the verdict compute `MatchChars` |
| `Fuzzy.ScanStaysAhead` | crates/fancy-utils/src/fuzzy.rs:65-98 | the greedy scan is never behind leftmost matching, counts what it consumes, and pays at most 3 per text character |
| `Fuzzy.MatchBounds` | crates/fancy-utils/src/fuzzy.rs:100-125 | a match fails exactly when too many characters are left over; the score bound |
| `FuzzyTrace.OneCompleteScan` | crates/fancy-utils/src/fuzzy.rs:65-98 | every pattern and text allow exactly one complete list of direct matches, swaps and gaps |
| `FuzzyTrace.MatchScoresExactly` | crates/fancy-utils/src/fuzzy.rs:58-125 | from that list: no match exactly when more than a third of the pattern and more than one character is left over, else 3 per gap and 5 per swap less the streak and word-start rewards, 15 per character left over, and the length ratio |
| `FuzzyTrace.ScoreOfMoves` | crates/fancy-utils/src/fuzzy.rs:65-98 | without direct matches the score is 3 per gap plus 5 per swap, and direct matches never raise it |
| `FuzzyTrace.PrefixScoresRatio` | crates/fancy-utils/src/fuzzy.rs:58-125 | a text that starts with the pattern costs exactly the length ratio |
| `FuzzyTrace.OccurrenceScoresRest` | crates/fancy-utils/src/fuzzy.rs:30-35 | a contiguous occurrence scores the bytes before and after it, whatever the cutoff |
| `FuzzyTrace.FuzzyScoreExactly` | crates/fancy-utils/src/fuzzy.rs:37-53 | otherwise the score is that of the complete list of moves, kept if and only if it is within the cutoff and the pattern is at most 2 characters longer than the text |
| `FuzzyTrace.CutoffExactly` | crates/fancy-utils/src/fuzzy.rs:23-53 | a result lies above the cutoff if and only if the pattern occurs contiguously with more bytes around it than the cutoff |
| `FuzzyTrace.AboveCutoff` | crates/fancy-utils/src/fuzzy.rs:23-35 | a pattern, text and cutoff with a result above the cutoff |
| `Fuzzy.SubsequenceMatches` | crates/fancy-utils/src/fuzzy.rs:58-125 | every subsequence of the text is matched in full |
| `Fuzzy.SubsequenceIsFound` | crates/fancy-utils/src/fuzzy.rs:24-53 | a subsequence is found when the cutoff leaves room for the bound, a contiguous one always |
| `PingStats.PingStats.RecordTcpRtt` | crates/mumble-protocol/src/state.rs:150-158 | afterwards the fields are the mean and population variance of all samples so far, the variance not negative |
| `PingStats.RecordedIsMeanAndVariance` | crates/mumble-protocol/src/state.rs:150-158 | the same for every sequence of samples at once |

## Left out

- AES, Opus, protobuf payloads and DeepFilterNet: arbitrary functions with only the inverse or determinism that a theorem states.
- Ocb2State.Ocb2CryptState.Decrypt: packet counters are unbounded naturals, because 32-bit overflow of a packet count is not what the code is about.
- UdpResync.ReaderLoop: publishing the counters and decoding the plaintext are not modelled; a full work queue is the `queueOpen` flag.
- AudioMixer.SpeakerMixer.Feed: samples are reals and cosine weights arbitrary functions; sequence numbers do not overflow; a lock is never poisoned; creating a decoder never fails.
- MixerSource.MumbleMixerSource.Next: the diagnostics counters are not modelled; the soft clipper is an arbitrary function.
- Fuzzy.FuzzyMatchChars: three fifths of the pattern length is rounded up exactly rather than in 32-bit floating point; the score is an unbounded natural.
- PingStats.PingStats.RecordTcpRtt: over the reals, without rounding.
- `decode_tunnel_audio`, the protobuf audio codec and the positional fields of the audio message.
- `feed_lost` (not called) and the cpal and Android playback devices.
- TLS, sockets, channels, DNS, device threads; commands, generated code, user interface, persistence and the signal bridge.
- HTML, image, hex, version and permission helpers: they would only add easy members.
