# Media and configuration logic of the RTMP server

This project models the logic of the server that carries its own guarantees, and proves what that logic
promises. Everything the source changes step by step is a class or a method with loops here, proved
against a specification function; what is promised is then proved about the specification, over all
inputs, histories and ways in which a file operation can fail.

- **Configuration** (`ConfLexer`, `ConfParser`, `ConfSyntax`, `ConfGrammar`, `ConfRoundTrip`): the
  quote- and comment-aware scanner, the recursive parser, the grammar of exactly the files it accepts, and
  exactly which directive trees can be written down.
- **Reload of ingesters** (`Ingest`, `IngestReload`): the diff of two configurations and the handlers that
  start and stop ffmpeg, and their agreement with a fresh start.
- **Live source** (`LiveQueue`, `QueueRuns`, `Source`, `SourceTheorems`, `AbsoluteTime`): timestamp
  corrector, bounded queue, picture cache, late joiners, players in absolute time and aggregate messages.
- **FLV and DVR** (`Bytes`, `Stream`, `Flv`, `FlvTheorems`, `Dvr`): tag writer and readers, the fast scan
  for sequence headers, and when a recording is cut.
- **HLS** (`AvcAac`, `Avcc`, `AnnexB`, `Adts`, `MpegTs`, `TransportStream`, `HlsMuxer`, `HlsRuns`,
  `HlsCache`, `Hls`): the chain from FLV payloads to NAL units and AAC frames, to Annex B and ADTS, to PES
  and TS packets, each link with an independent reader of its format; the playlist state machine; and
  the state in which HLS is on.
- **JSON** (`JsonText`, `JsonNumbers`, `JsonParser`, `Json`, `JsonStrings`, `JsonSyntax`,
  `JsonRoundTrip`): the in-place parser, a pure parser it refines, the texts of RFC 8259 as laid out, and
  the round trip.

`Pieces` holds what is said of pieces of sequences, `Codec` the classification of payloads.

## Conventions

- Times of segments are in ticks of 1/90000 s; a duration of the source is a number of ticks divided by
  90000. Masks and shifts are written as remainders and divisions that round down.
- File operations that may fail are nondeterministic; methods report how they ended in a ghost
  out-parameter (or promise that some ending explains the new state), and specification functions take
  that ending as an argument.
- The environment of ffmpeg (which parameters it accepts, how names are substituted, the log file's name)
  and the configuration that a handler looks up are parameters.

## Where the code differs from what is said about it

The model follows the code. Each item names the member that states when it happens.

- NAL unit lengths of two and three bytes are never read as such, because the loop tests the length just
  being read instead of the configured size; one-byte lengths are read as signed numbers
  (`Avcc.PictureRecoveredIff`).
- AAC frames of 8185 to 8191 bytes pass the size check, but their length does not fit into the 13 bits that
  include the header (`Adts.FramesRoundTripIff`).
- The composition time of a picture is read without its sign (`AvcAac.CompositionTimeIsReadIff`).
- A queue length below zero can make the shrinking loop endless (`QueueRuns.ShrinkingEndsIff`,
  `QueueRuns.NegativeLengthNeverEnds`), and in absolute-time mode the queue can span more than its length:
  when the stream is not in order, and when a player is started with headers that are not
  (`AbsoluteTime.CreatedPlayerBoundIff`, `AbsoluteTime.StreamBoundIff`).
- File names of segments are cut at 127 characters, so that segments may share a file
  (`HlsRuns.NamesDistinctIff`, `HlsRuns.SafeIffNamesFit`).
- A playlist that could not be replaced keeps naming files that are unlinked right after
  (`HlsRuns.StalePlaylistNamesUnlinked`, `HlsRuns.FileIsThereIff`), and after a reload of the path a playlist
  names segments that are not beside it (`HlsRuns.MovedPlaylistIsUnsafe`, `HlsRuns.CompleteIsSafeIff`).
- A frame that could not be written uses up a continuity counter
  (`TransportStream.ContinuityBreaksOnlyAtFailures`), and a picture that could not be written stays in the
  buffer, in front of the next one (`Hls.HlsOutput.OnVideo`).
- A configuration word with both quotes and a blank cannot be written (`ConfRoundTrip.NotExpressible`,
  `ConfRoundTrip.ExpressibleIffWritable`).
- A vhost that is off when the server starts has its ingesters started nevertheless, and once more when it
  is switched on (`IngestReload.EnablingAgreesIff`); ingest directives of a vhost that share an id are not
  told apart (`IngestReload.AgreesFromEveryOldIff`, `IngestReload.AgreesForEveryNewIff`); and one without an
  engine never starts (`IngestReload.NoEngineNeverStarts`).
- A packet that could not be written to a recording stretches its segment (`Dvr.TightIffNothingFailed`,
  `Dvr.BoundIsReached`).
- The hss plan of the recorder falls behind its grid for lengths below half a second, and below k + 1 half
  seconds if k packets in a row cannot be written (`Dvr.HssKeepsUpIff`).
- `SrsJsonAny::loads` passes no encoder, so unicode escapes stay as they are: a text is loaded as what it
  denotes exactly when it has none (`JsonRoundTrip.LoadsLaidOut`, `JsonRoundTrip.LoadPrint`).
- The parser takes a closing brace right behind a colon for the end of the object
  (`JsonSyntax.BraceBehindColonEnds`).

## Model

| member | source | states |
|---|---|---|
| ConfLexer.Feed | trunk/src/app/srs_app_config.cpp:314-437 | the body of the scanning loop: for every character, quoting and comment state, the words, flags and line that one step of the scanner gives |
| ConfLexer.ReadToken | trunk/src/app/srs_app_config.cpp:300-439 | the words of one directive and what ended them are those of the scanner; a call that does not report the end of the file moves the cursor forward |
| ConfParser.ReadDirective | trunk/src/app/srs_app_config.cpp:244-292 | one turn of the parsing loop: a directive, with its nested block if it has one, or the end of the enclosing block with the code that stands for it |
| ConfParser.ParseConf | trunk/src/app/srs_app_config.cpp:240-272 | parsing a file or a block gives the directives and the code of the recursive grammar, also when it fails in the middle |
| ConfParser.ParseFile | trunk/src/app/srs_app_config.cpp:98-141 | parsing the text of a whole file, starting on line 1; a file without any text is refused |
| ConfParser.EqualsUpToLines | trunk/src/app/srs_app_config.cpp:2854-2893 | the structural comparison accepts two directives if and only if they differ in line numbers only |
| ConfSyntax.FileParses | trunk/src/app/srs_app_config.cpp:240-439 | every file that is laid out by the rules of the language (any quoting, gaps, comments, nesting, trailing text; words that stand for nothing are passed over) parses to exactly the directives it denotes, each on the line where its words end |
| ConfGrammar.AcceptedIffLaidOut | trunk/src/app/srs_app_config.cpp:240-439 | no other file is accepted: a text that is not empty parses if and only if it is laid out by these rules |
| ConfRoundTrip.ParsedIsWritable | trunk/src/app/srs_app_config.cpp:240-439 | whatever the text is: every word of the parsed tree is non-empty, free of zero characters and can be quoted |
| ConfRoundTrip.RoundTrip | trunk/src/app/srs_app_config.cpp:240-439 | a tree of such words, printed canonically and parsed, gives back a tree that the reload comparison takes for the same |
| ConfRoundTrip.ExpressibleIffWritable | trunk/src/app/srs_app_config.cpp:300-439 | a tree of directives is what some file parses to if and only if each of its words is writable |
| ConfRoundTrip.NotExpressible | trunk/src/app/srs_app_config.cpp:300-439 | a word with both kinds of quotes and a blank is in no file's tree, so the round trip does not hold for all non-empty words without zero characters |
| Ingest.Ingester.ParseEngines | trunk/src/app/srs_app_ingest.cpp:110-161 | starting one ingest directive appends the ingesters its engines describe, up to the first that cannot be initialised |
| Ingest.Ingester.ParseIngesters | trunk/src/app/srs_app_ingest.cpp:92-108 | starting a vhost starts its ingest directives in order, up to the first that fails |
| Ingest.Ingester.Stop | trunk/src/app/srs_app_ingest.cpp:401-428 | erasing from the list while walking over it removes exactly the ingesters of the vhost (and id), and keeps the order of the others |
| Ingest.Ingester.OnReloadVhostRemoved | trunk/src/app/srs_app_ingest.cpp:372-399 | all ingesters of a removed vhost are stopped, no others |
| Ingest.Ingester.OnReloadIngestRemoved | trunk/src/app/srs_app_ingest.cpp:401-428 | all ingesters of a removed ingest directive are stopped, no others |
| Ingest.Ingester.OnReloadVhostAdded | trunk/src/app/srs_app_ingest.cpp:358-370 | a new vhost's ingest directives are started behind what already runs |
| Ingest.Ingester.OnReloadIngestAdded | trunk/src/app/srs_app_ingest.cpp:430-445 | the directive that the configuration finds under the id is started behind what already runs |
| Ingest.Ingester.OnReloadIngestUpdated | trunk/src/app/srs_app_ingest.cpp:447-463 | a changed directive is stopped and started again |
| Ingest.ReloadIngest | trunk/src/app/srs_app_config.cpp:1094-1192 | the events of a reload, in the order in which the two configurations are compared, turn the list of ingesters into that of the specification, and stop at the first error |
| Ingest.Ingester.Parse | trunk/src/app/srs_app_ingest.cpp:213-229 | the start of the server starts the ingest directives of all vhosts, enabled or not, up to the first that fails |
| Ingest.Ingester.Begin | trunk/src/app/srs_app_ingest.cpp:69-90 | when any of them fails nothing is ingested at all |
| Ingest.ReloadVhost | trunk/src/app/srs_app_config.cpp:862-1003 | the ingest part of reloading a vhost that was switched on, switched off or changed |
| Ingest.ReloadVhosts | trunk/src/app/srs_app_config.cpp:840-860 | the vhosts of the new configuration and then those that are gone are reloaded one by one, up to the first error |
| IngestReload.ReloadAgreesWithFreshStart | trunk/src/app/srs_app_config.cpp:1094-1192 | for directives that start: after a reload a vhost has, for each id, the ingesters of a fresh start with the new configuration, and other vhosts keep theirs, if directives of the new one that share an id are all off and of those of the old one only the first is on |
| IngestReload.AgreesFromEveryOldIff | trunk/src/app/srs_app_config.cpp:1094-1192 | the condition on the new configuration is exact: from every old one that meets its own condition the reload agrees with a fresh start if and only if directives that share an id are all off |
| IngestReload.AgreesForEveryNewIff | trunk/src/app/srs_app_config.cpp:1094-1192 | so is the condition on the old one: to every new one that meets its condition the reload agrees with a fresh start if and only if no directive is on behind the first one with its id |
| IngestReload.InStepSameIngesters | trunk/src/app/srs_app_ingest.cpp:92-161 | agreeing for each id means having the same multiset of ingesters as a fresh start |
| IngestReload.AnyHistoryAgrees | trunk/src/app/srs_app_config.cpp:862-1003 | the same after any number of reloads of a vhost, in which it may be switched off and on, appear and disappear |
| IngestReload.ReloadFollows | trunk/src/app/srs_app_config.cpp:830-1008 | the same for all vhosts of a configuration: after a reload the server runs, of every vhost that is on, what a fresh start would have running, and nothing of the others |
| IngestReload.StartIsInStepIff | trunk/src/app/srs_app_ingest.cpp:213-229 | a server that was started is in step with a vhost, on or off, if and only if no other vhost has its name or it starts nothing |
| IngestReload.StartFollowsIff | trunk/src/app/srs_app_ingest.cpp:213-229 | a server that was started on vhosts with different names runs of all of them what the configuration says if and only if those that are off have nothing to start |
| IngestReload.LifetimeFollows | trunk/src/app/srs_app_config.cpp:830-1008 | such a server, after its start and any number of reloads, runs of every vhost what the last configuration says |
| IngestReload.NoEngineNeverStarts | trunk/src/app/srs_app_ingest.cpp:110-161 | an enabled ingest directive without an engine never starts, because there is no output to write to |
| IngestReload.EnablingAgreesIff | trunk/src/app/srs_app_ingest.cpp:358-370 | for a server in step with a vhost that is off, as it is when it was started with it: switching the vhost on agrees with a fresh start if and only if the old configuration started nothing, which for directives that start means that none of them was on |
| IngestReload.OffAndOnAgrees | trunk/src/app/srs_app_ingest.cpp:358-399 | switching a vhost off and on again agrees with a fresh start, whatever ran of it before |
| Stream.ByteStream.Initialize | trunk/src/kernel/srs_kernel_stream.cpp:45-65 | a stream covers a range of a buffer from its start; an empty range is an error that changes nothing |
| Stream.ByteStream.Read1 | trunk/src/kernel/srs_kernel_stream.cpp:102-107 | one byte is read as a signed number and the cursor moves on; in front of the buffer the value is not known |
| Stream.ByteStream.Read2 | trunk/src/kernel/srs_kernel_stream.cpp:109-119 | two bytes are read in big-endian order |
| Stream.ByteStream.Read3 | trunk/src/kernel/srs_kernel_stream.cpp:121-132 | three bytes are read in big-endian order, without a sign |
| Stream.ByteStream.Read4 | trunk/src/kernel/srs_kernel_stream.cpp:134-146 | four bytes are read in big-endian order as a signed number |
| Stream.ByteStream.Write3 | trunk/src/kernel/srs_kernel_stream.cpp:214-222 | three bytes are written in big-endian order and no other byte changes |
| Stream.ByteStream.Write4 | trunk/src/kernel/srs_kernel_stream.cpp:203-212 | four bytes are written in big-endian order and no other byte changes |
| Bytes.BigEndian24 | trunk/src/kernel/srs_kernel_stream.cpp:121-132 | a number written in three big-endian bytes reads back modulo 2^24 |
| Bytes.BigEndian32 | trunk/src/kernel/srs_kernel_stream.cpp:134-146 | a number written in four big-endian bytes reads back modulo 2^32 |
| Flv.FlvEncoder.WriteTag | trunk/src/kernel/srs_kernel_flv.cpp:341-369 | header, data and the size of both are appended; a failing write leaves a prefix of them |
| Flv.FlvEncoder.PatchHeader | trunk/src/kernel/srs_kernel_flv.cpp:280-292 | size, low 24 bits and high byte of the time are patched into the fixed header; all other bytes stay zero |
| Flv.FlvEncoder.WriteAudio | trunk/src/kernel/srs_kernel_flv.cpp:272-302 | an audio tag of the file format is appended, with the time modulo 2^31 |
| Flv.FlvEncoder.WriteVideo | trunk/src/kernel/srs_kernel_flv.cpp:304-334 | a video tag of the file format is appended, with the time modulo 2^31 |
| Flv.FlvEncoder.WriteMetadata | trunk/src/kernel/srs_kernel_flv.cpp:246-270 | a script tag at time 0 is appended |
| Flv.FlvDecoder.ReadTagHeader | trunk/src/kernel/srs_kernel_flv.cpp:570-605 | type, size and time are those of the header at the file position, which moves behind it unless it is torn |
| Flv.ReadAll | trunk/src/kernel/srs_kernel_flv.cpp:570-635 | reading tag by tag until something fails gives the tags of the specification; if the last one is torn, those in front of it come first |
| Flv.FlvFastDecoder.ReadSequenceHeader | trunk/src/kernel/srs_kernel_flv.cpp:414-505 | for a file whose tag headers are whole the range that is returned is that of the scan, which skips tags that are neither audio nor video |
| FlvTheorems.TagsRoundTrip | trunk/src/kernel/srs_kernel_flv.cpp:246-369 | a file of tags behind any header reads back as it was written, times modulo 2^31, if and only if each tag has between 1 and 2^24 - 1 bytes of data |
| FlvTheorems.FastScanIsRight | trunk/src/kernel/srs_kernel_flv.cpp:414-505 | on any list of such tags the scan succeeds if and only if some audio or video tag repeats; its range starts at the first audio or video tag and ends behind the last one before the first repeat |
| FlvTheorems.RangeHoldsOneOfEach | trunk/src/kernel/srs_kernel_flv.cpp:414-505 | no two audio or video tags of that range have the same kind |
| LiveQueue.RtmpJitter.Correct | trunk/src/app/srs_app_source.cpp:57-112 | the corrected time is the last one plus the accepted or guessed step, never below zero; messages that are neither audio nor video get time 0 |
| LiveQueue.MessageQueue.Enqueue | trunk/src/app/srs_app_source.cpp:135-154 | a message is appended and groups of pictures are dropped until the queue no longer overflows, for every queue on which this ends |
| LiveQueue.MessageQueue.GetPackets | trunk/src/app/srs_app_source.cpp:156-190 | up to the given number of messages (0 for all) leave the front of the queue, in order |
| LiveQueue.MessageQueue.Shrink | trunk/src/app/srs_app_source.cpp:192-231 | everything in front of the next video keyframe is dropped, or the whole queue if there is none |
| LiveQueue.Consumer.Enqueue | trunk/src/app/srs_app_source.cpp:278-294 | a message is retimed, unless time is absolute, and queued, under the same condition |
| LiveQueue.Consumer.GetPackets | trunk/src/app/srs_app_source.cpp:296-309 | a paused player gets nothing and its queue is left alone |
| LiveQueue.Consumer.OnPlayClientPause | trunk/src/app/srs_app_source.cpp:311-319 | a player is paused or goes on, and nothing else changes |
| QueueRuns.NoMessageLost | trunk/src/app/srs_app_source.cpp:135-245 | over every run of adding, taking and resizing: what was delivered, dropped and is still queued is, in this order and once each, all that was added; each drop is not empty and ends just before a video keyframe or with the newest message |
| QueueRuns.CorrectedStep | trunk/src/app/srs_app_source.cpp:57-112 | a corrected time never steps back, never by more than half a second, and by the step of the input where that is acceptable |
| QueueRuns.QueueSpanBounded | trunk/src/app/srs_app_source.cpp:135-294 | for arbitrary timestamps, reads, pauses and resizes: after each message fed through the corrector, no two audio or video messages in the queue are further apart than the configured length |
| QueueRuns.AbsoluteBoundIff | trunk/src/app/srs_app_source.cpp:135-294 | in absolute time, without the corrector: for a player that is given some messages at once and others later, whatever its length, reads, pauses and resizes are and the stream goes on with, the bound holds if and only if nothing it is fed, metadata included, is later than audio or video behind it |
| AbsoluteTime.CreatedPlayerBoundIff | trunk/src/app/srs_app_source.cpp:1306-1357 | for a player that joins a source in absolute time, over all later streams in order: the bound holds if and only if pictures are cached, to whose time the kept messages are moved, or the kept metadata, video header and audio header are stamped in the order in which they are sent |
| AbsoluteTime.StreamBoundIff | trunk/src/app/srs_app_source.cpp:952-1357 | for a whole stream in absolute time and players that join at any point of it: the bound holds for all of them if and only if the stream is in order and each of them could be started in order |
| QueueRuns.ShrinkingEndsIff | trunk/src/app/srs_app_source.cpp:135-231 | the shrinking loop ends if and only if the length is not negative, or nothing overflows, or a keyframe behind the front is so late that the queue from there on fits the length |
| QueueRuns.CorrectedShrinkingEndsIff | trunk/src/app/srs_app_source.cpp:135-231 | in a queue filled through the corrector the last case cannot occur |
| QueueRuns.NegativeLengthNeverEnds | trunk/src/app/srs_app_source.cpp:135-154 | with a negative length the first message that a player is sent is never done with |
| Source.GopCache.Cache | trunk/src/app/srs_app_source.cpp:345-380 | a message joins the cached pictures; a keyframe starts them anew, and audio in front of any picture is not cached |
| Source.GopCache.Dump | trunk/src/app/srs_app_source.cpp:394-409 | a player gets the cached messages in order |
| Source.LiveSource.OnAudio | trunk/src/app/srs_app_source.cpp:952-1040 | an audio message is delivered to every player; a sequence header is kept, other audio may be cached, and in absolute time the kept headers take its time |
| Source.LiveSource.OnVideo | trunk/src/app/srs_app_source.cpp:1042-1130 | the same for video |
| Source.LiveSource.OnMetaData | trunk/src/app/srs_app_source.cpp:838-950 | metadata sets the rates and the time mode, is kept and delivered unless it is empty |
| Source.LiveSource.OnAggregate | trunk/src/app/srs_app_source.cpp:1132-1229 | the audio and video sub-messages of an aggregate are taken one by one up to the first that is cut off, which is the error that is reported |
| Source.LiveSource.OnUnpublish | trunk/src/app/srs_app_source.cpp:1274-1304 | all that is kept of a stream is dropped |
| Source.LiveSource.CreateConsumer | trunk/src/app/srs_app_source.cpp:1306-1357 | a new player is added and is sent metadata, video header, audio header and cached pictures, in absolute time moved to the start of the pictures |
| Source.LiveSource.OnReloadVhostQueueLength | trunk/src/app/srs_app_source.cpp:592-630 | every player's queue gets the new length |
| Source.LiveSource.OnReloadVhostAtc | trunk/src/app/srs_app_source.cpp:554-571 | a reload of the time mode only drops the cached pictures |
| Source.LiveSource.OnReloadVhostGopCache | trunk/src/app/srs_app_source.cpp:573-590 | switching the picture cache off drops the cached pictures |
| Source.LiveSource.OnConsumerDestroy | trunk/src/app/srs_app_source.cpp:1359-1371 | a player is taken from the list, the others keep their order |
| SourceTheorems.CacheIsLastGop | trunk/src/app/srs_app_source.cpp:345-392 | after any session the cache holds exactly the audio and video since the last keyframe |
| SourceTheorems.HeadersAreLatest | trunk/src/app/srs_app_source.cpp:952-1117 | after any session the kept metadata and sequence headers are the latest ones, in absolute time up to the time they are stamped with |
| SourceTheorems.LateJoinerIsStartedFromLastKeyframe | trunk/src/app/srs_app_source.cpp:1306-1357 | a player that joins at any point is started with the latest metadata, video and audio header, in absolute time restamped, and exactly the live messages from the last keyframe on |
| SourceTheorems.LateIsAsEarly | trunk/src/app/srs_app_source.cpp:1306-1357 | in corrected time, whatever was cached before: a player that joins within a group of pictures in which no metadata came ends in the same state (queue, corrector and all) as one that was started with the headers alone and got the keyframe and all that followed when they came |
| SourceTheorems.AbsoluteHeadersStartWithPictures | trunk/src/app/srs_app_source.cpp:1314-1325 | in absolute time the headers a player is started with carry the time of the first cached picture |
| SourceTheorems.AggregateIsFlvTags | trunk/src/app/srs_app_source.cpp:1132-1229 | an aggregate that is a concatenation of tags as the FLV writer writes them is cut into exactly the audio and video ones, in order, with their data and 31-bit times |
| SourceTheorems.UnpublishCleans | trunk/src/app/srs_app_source.cpp:1274-1304 | after a stream ends a new player gets nothing of it |
| Dvr.DvrPlan.OnPublish | trunk/src/app/srs_app_dvr.cpp:93-125 | a recording starts with no counted time; a second start changes nothing |
| Dvr.DvrSegmentPlan.OnPublish | trunk/src/app/srs_app_dvr.cpp:434-447 | a recording that is still open goes on, and otherwise a new one is started if it is wanted |
| Dvr.DvrPlan.UpdateDuration | trunk/src/app/srs_app_dvr.cpp:309-334 | a packet is counted into the segment and the stream; a time that runs backwards counts as no step |
| Dvr.DvrPlan.Reap | trunk/src/app/srs_app_dvr.cpp:456-480 | the current file is closed and the next one opened, or the recording is left without a file when one of the two fails |
| Dvr.DvrSegmentPlan.OnAv | trunk/src/app/srs_app_dvr.cpp:456-480 | a packet is retimed, written and counted, and the segment is cut when it is longer than configured |
| Dvr.DvrSegmentPlan.Record | trunk/src/app/srs_app_source.cpp:976-985 | a packet on which the recorder fails disables the recording and does not stop the stream |
| Dvr.DvrHssPlan.OnPublish | trunk/src/app/srs_app_dvr.cpp:508-529 | the same, and the first cut is expected one length after the start of the stream |
| Dvr.DvrHssPlan.OnAv | trunk/src/app/srs_app_dvr.cpp:639-680 | a packet is retimed, written and counted, and the segment is cut when the stream has passed the expected time, which moves on by one length |
| Dvr.PacketConserves | trunk/src/app/srs_app_dvr.cpp:309-334 | however the file operations end, the durations of the closed segments and of the current one add up to that of the stream |
| Dvr.RunConserves | trunk/src/app/srs_app_dvr.cpp:309-334 | so they do over every run of packets, failures, unpublishing and publishing |
| Dvr.PublishConserves | trunk/src/app/srs_app_dvr.cpp:93-125 | the same holds from the start of a recording on |
| Dvr.SegmentCutsAreInTime | trunk/src/app/srs_app_dvr.cpp:456-480 | over every such run, for arbitrary timestamps: a segment that is cut lasts longer than configured by at most (k + 1) half seconds, where k packets could not be written right before the one that ended it, and the current one no longer than configured |
| Dvr.SegmentCutsAreTight | trunk/src/app/srs_app_dvr.cpp:456-480 | over every run in which each packet could be written, whatever else fails, segments exceed the configured length by at most half a second |
| Dvr.BoundIsReached | trunk/src/app/srs_app_dvr.cpp:193-217 | for every k there is a stream with k failed writes and a segment that exceeds the length by (k + 1) half seconds |
| Dvr.TightIffNothingFailed | trunk/src/app/srs_app_dvr.cpp:193-217 | the half-second bound holds for all streams with up to k failed writes if and only if k is 0 |
| Dvr.HssCutsDoNotDrift | trunk/src/app/srs_app_dvr.cpp:639-680 | over every run in which no more than k packets in a row could not be written, for a length of at least k + 1 half seconds: after n cuts the next one is expected n + 1 lengths after the start, and the stream has not passed it |
| Dvr.HssKeepsUpIff | trunk/src/app/srs_app_dvr.cpp:639-680 | for every k: over all such runs the stream never gets ahead of the expected cut if and only if the length is at least k + 1 half seconds |
| MpegTs.MpegtsWriter.WritePcr | trunk/src/app/srs_app_hls.cpp:335-345 | the six bytes of the program clock reference are written |
| MpegTs.MpegtsWriter.WritePts | trunk/src/app/srs_app_hls.cpp:346-362 | the five bytes of a time stamp are written |
| MpegTs.MpegtsWriter.WriteHead | trunk/src/app/srs_app_hls.cpp:182-265 | everything in front of the payload: TS header, adaptation field of a keyframe, PES header with its length or 0 |
| MpegTs.MpegtsWriter.FillStuff | trunk/src/app/srs_app_hls.cpp:293-334 | the bytes behind the adaptation field move up by the missing bytes; an adaptation field that was there grows and its new bytes are not specified, a new one has its flags cleared and is filled with 0xff |
| MpegTs.MpegtsWriter.WriteFrame | trunk/src/app/srs_app_hls.cpp:166-291 | a frame becomes packets of 188 bytes with its PID, a start mark on the first only, consecutive counters and clock and random access on a keyframe; all but the last are full and their payloads are the PES header and the data; an empty frame leaves no trace, and a failing write leaves whole packets and part of one |
| TransportStream.TimeRoundTrip | trunk/src/app/srs_app_hls.cpp:346-362 | decoding a time stamp gives the written value modulo 2^33 |
| TransportStream.TimeHasMarkers | trunk/src/app/srs_app_hls.cpp:346-362 | each of its three parts ends in a marker bit |
| TransportStream.PcrRoundTrip | trunk/src/app/srs_app_hls.cpp:335-345 | decoding the clock reference gives the written value modulo 2^33, also for negative values |
| TransportStream.PesLengthIsRight | trunk/src/app/srs_app_hls.cpp:226-239 | PES_packet_length is the number of bytes behind it, or 0 if that exceeds 65535 |
| TransportStream.PesRoundTrip | trunk/src/app/srs_app_hls.cpp:208-265 | a PES parser recovers stream id, both times modulo 2^33 and the data |
| TransportStream.TransportIsLossless | trunk/src/app/srs_app_hls.cpp:166-334 | a demultiplexer that knows only ISO/IEC 13818-1 recovers from a file of interleaved frames exactly the frames of each PID, in order, even behind a write that broke off |
| TransportStream.ContinuityBreaksOnlyAtFailures | trunk/src/app/srs_app_hls.cpp:182-197 | over any log of written frames, in any number of files: from packet to packet of a PID the continuity counter goes up by one modulo 16 for as long as every frame could be written, and each frame that could not be written uses up one number more than it leaves packets |
| TransportStream.TablesArePackets | trunk/src/app/srs_app_hls.cpp:69-126 | the program tables in front of a file are two packets with the PIDs they are announced under |
| TransportStream.TsMuxer.Open | trunk/src/app/srs_app_hls.cpp:425-448 | a new file starts with the tables |
| TransportStream.TsMuxer.WriteFrame | trunk/src/app/srs_app_hls.cpp:450-470 | a frame is appended to what the file holds; after a failure nothing more is promised of the file |
| TransportStream.FileIsLossless | trunk/src/app/srs_app_hls.cpp:425-470 | a file that no write failed on gives back every frame written to it |
| AvcAac.CodecSample.AddSample | trunk/src/app/srs_app_avc_aac.cpp:79-95 | at most 128 samples are held, more are an error |
| AvcAac.AvcAacCodec.ReadNalus | trunk/src/app/srs_app_avc_aac.cpp:411-444 | for arbitrary bytes and configurations the loop ends, with at most 128 samples; as long as the cursor does not leave the payload to the front, samples and error are those of the cutting function |
| AvcAac.AvcAacCodec.VideoAvcDemux | trunk/src/app/srs_app_avc_aac.cpp:270-453 | frame type, packet type and composition time are those of the tag; a decoder configuration is stored up to its first missing part; a picture is cut if a configuration is known |
| AvcAac.CompositionTimeIsReadIff | trunk/src/app/srs_app_avc_aac.cpp:312-315 | a composition time of 24 bits with a sign is read right if and only if it is not negative, and otherwise 2^24 too large |
| AvcAac.AvcAacCodec.AudioAacDemux | trunk/src/app/srs_app_avc_aac.cpp:135-268 | an AudioSpecificConfig is stored, raw data becomes one sample if a configuration is known, anything but AAC is refused; the sound rate is corrected by the known frequency |
| Avcc.PictureRecoveredIff | trunk/src/app/srs_app_avc_aac.cpp:411-444 | a picture with length-prefixed NAL units is cut into exactly these if and only if there are at most 128 and each length is read as written: 4-byte lengths always, 1-byte lengths below 128, 2- and 3-byte lengths never |
| Avcc.CutsStayInPayload | trunk/src/app/srs_app_avc_aac.cpp:411-444 | whatever the payload is, no slice that is taken before the first non-positive one leaves it |
| Avcc.RecordRoundTrip | trunk/src/app/srs_app_avc_aac.cpp:318-403 | a decoder configuration record that is written is read back: length size, SPS, PPS and the record itself |
| AnnexB.SplitFinds | trunk/src/app/srs_app_hls.cpp:1195-1260 | an Annex B reader finds exactly the NAL units that were written with start codes of three and four bytes |
| AnnexB.SetsSentIff | trunk/src/app/srs_app_hls.cpp:1213-1244 | the flag of the writer says that an IDR slice was seen and no slice of another kind since |
| AnnexB.PictureIsPreserved | trunk/src/app/srs_app_hls.cpp:1195-1260 | an Annex B reader recovers an access unit delimiter and the picture's NAL units, with SPS and PPS right in front of exactly those IDR slices that come first since the start or since the last non-IDR slice |
| AnnexB.AccessUnitSurvives | trunk/src/app/srs_app_avc_aac.cpp:411-444 | the composition: from an FLV payload through the demuxer and the byte stream writer, an Annex B reader recovers the picture |
| Adts.FramesRoundTripIff | trunk/src/app/srs_app_hls.cpp:1128-1193 | an ADTS reader recovers the frames with profile, frequency and channels if and only if none is longer than 8184 bytes; longer ones are accepted up to 8191 bytes and break the framing |
| Adts.CollectedFrameIsRead | trunk/src/app/srs_app_hls.cpp:1128-1193 | frames that are collected one by one, each with its own configuration, are read one by one |
| Adts.FieldsComeFromConfig | trunk/src/app/srs_app_avc_aac.cpp:204-246 | the header fields that a reader sees are the bits of the AudioSpecificConfig: frequency index, channels modulo 8, object type less one, extended types as low complexity |
| HlsMuxer.Muxer.SegmentOpen | trunk/src/app/srs_app_hls.cpp:557-604 | the next number and its file name are taken; nothing changes when a segment is open or the directory cannot be made; a segment whose file cannot be created stays current |
| HlsMuxer.Muxer.FlushAudio | trunk/src/app/srs_app_hls.cpp:626-651 | buffered audio is written as one frame and the buffer emptied, or kept when writing fails; without a segment nothing happens |
| HlsMuxer.Muxer.FlushVideo | trunk/src/app/srs_app_hls.cpp:653-677 | the same for a picture |
| HlsMuxer.Muxer.SegmentClose | trunk/src/app/srs_app_hls.cpp:679-771 | the segment is listed if it lasts at least 100 ms and otherwise forgotten with its number; segments that left the window are dropped, the playlist is replaced and their files unlinked, with every way a rename, an open or a write can fail |
| HlsMuxer.Muxer.RefreshM3u8 | trunk/src/app/srs_app_hls.cpp:773-802 | the playlist on the disk is replaced by the new one, or by its beginning, unless it could not be opened or renamed |
| HlsMuxer.Muxer.WriteM3u8 | trunk/src/app/srs_app_hls.cpp:804-905 | the lines that are written are those of the playlist, up to the first failing write |
| HlsRuns.FittingNamesDiffer | trunk/src/app/srs_app_hls.cpp:580-583 | different sequence numbers have different file names if the larger number fits into the buffer behind the stream's name |
| HlsRuns.NamesDistinctIff | trunk/src/app/srs_app_hls.cpp:580-583 | the first n segments have different file names if and only if the last of their numbers fits into the buffer, or there is only one |
| HlsRuns.TargetExceedsAll | trunk/src/app/srs_app_hls.cpp:849-856 | the target duration is larger than every listed duration, and the whole seconds of the longest plus one |
| HlsRuns.DroppedIffWindow | trunk/src/app/srs_app_hls.cpp:735-751 | the segments that are dropped are determined by the window: all that are kept but the first fit into it, and if any is dropped those that are kept are longer |
| HlsRuns.NumbersAreConsecutive | trunk/src/app/srs_app_hls.cpp:557-771 | over every run the listed segments have consecutive numbers, the current one is the next, and each listed one lasts at least 100 ms |
| HlsRuns.MediaSequenceNeverDecreases | trunk/src/app/srs_app_hls.cpp:837-840 | over every run, failing operations and reloads of the path included, the media sequence that a player reads from one playlist file never decreases |
| HlsRuns.PlaylistIsSafe | trunk/src/app/srs_app_hls.cpp:679-802 | over every run in which the numbers of the segments listed so far fit into their names and the listed segments were opened in the directory that is configured now: each URI in the playlist on the disk names a file that is there or could not be renamed when its segment was closed, unless the playlist is older than the last change |
| HlsRuns.CompleteIsSafeIff | trunk/src/app/srs_app_hls.cpp:679-802 | the condition on the directory is exact: when every file could be renamed, a complete playlist of the last change names only files beside it if and only if all its segments were opened in its directory |
| HlsRuns.MovedPlaylistIsUnsafe | trunk/src/app/srs_app_hls.cpp:679-802 | the input: a segment, a reload with another path and a segment give a playlist that names a file which is not beside it, though nothing failed |
| HlsRuns.SafeIffNamesFit | trunk/src/app/srs_app_hls.cpp:580-583 | the condition on the names is exact: every run that lists up to n segments, the listed ones in one directory, is safe if and only if their numbers fit |
| HlsRuns.FileIsThereIff | trunk/src/app/srs_app_hls.cpp:679-771 | over every run whose numbers fit, reloads of the path included, there is a segment file under a path if and only if a listed segment has that path and could be renamed: so a line of a stale playlist can be followed if and only if its segment has not been dropped since |
| HlsRuns.WindowIsKept | trunk/src/app/srs_app_hls.cpp:735-751 | after a segment was closed, all listed segments but the first fit into the window |
| HlsRuns.LongNamesUnlinkListedSegments | trunk/src/app/srs_app_hls.cpp:580-583 | for any stream name and the first number that does not fit there is a run, without a failure, whose up-to-date playlist names an unlinked file |
| HlsRuns.StalePlaylistNamesUnlinked | trunk/src/app/srs_app_hls.cpp:753-802 | two segments are enough for a playlist that could not be replaced to name an unlinked file |
| HlsCache.AacJitter.OnBufferStart | trunk/src/app/srs_app_hls.cpp:369-408 | a buffer gets the time of the sample clock as long as that is within the tolerance of the stream's time, and otherwise restarts the clock; the result is never further off than the tolerance |
| HlsCache.RegularAudioStaysOnGrid | trunk/src/app/srs_app_hls.cpp:369-413 | audio whose buffers start within the tolerance of the sample clock is never resynchronised, however its frames are collected into buffers |
| HlsCache.HlsCache.CacheAudio | trunk/src/app/srs_app_hls.cpp:1128-1193 | the frames are appended in ADTS headers, up to the first with a size of 0 or above 0x1fff |
| HlsCache.AdtsHeader | trunk/src/app/srs_app_hls.cpp:1142-1185 | the shifts and masks of the code build the ADTS header of the configuration and the frame length modulo 2^13 |
| HlsCache.HlsCache.CacheVideo | trunk/src/app/srs_app_hls.cpp:1195-1260 | the picture is appended as an Annex B byte stream, up to the first NAL unit without bytes |
| HlsCache.HlsCache.WriteVideo | trunk/src/app/srs_app_hls.cpp:1066-1100 | a picture is the last frame of the current file, with its times, key flag and byte stream, and the last that a demultiplexer finds in a sound file; a keyframe first starts a new segment, with the buffered audio in front, if the segment has lasted long enough; the buffer of the picture is empty afterwards if and only if it could be written |
| HlsCache.HlsCache.WriteAudio | trunk/src/app/srs_app_hls.cpp:1019-1064 | a frame is collected behind the others; the collection is written as one frame when it is large or old, or starts the next segment of a stream without video; in a sound file a demultiplexer finds it as the last audio |
| HlsCache.HlsCache.OnUnpublish | trunk/src/app/srs_app_hls.cpp:992-1006 | collected audio is written to the current file, and the segment is closed, unless the audio could not be written |
| HlsCache.HlsCache.ReapSegment | trunk/src/app/srs_app_hls.cpp:1102-1126 | closing, opening and flushing the audio into the new file; after a success a segment is open |
| Hls.HlsOutput.OnPublish | trunk/src/app/srs_app_hls.cpp:1290-1320 | turning HLS on opens a segment with the new configuration, which a kept sequence header can only mark; a stream that is already on, or not configured, is left alone |
| Hls.HlsOutput.OnUnpublish | trunk/src/app/srs_app_hls.cpp:1322-1336 | turning HLS off works in every state that a failure leaves |
| Hls.HlsOutput.OnAudio | trunk/src/app/srs_app_hls.cpp:1390-1432 | a frame is collected or written at its corrected time; once it is written to a sound file a player finds there all that was collected, frame by frame; a sequence header only marks the segment; whether HLS is on stays as it is, a success keeps a segment open, and the segment that the source asserts is there whenever it is needed |
| Hls.HlsOutput.OnVideo | trunk/src/app/srs_app_hls.cpp:1434-1475 | a picture is the last frame of the current file, with its corrected time, its composition time and the NAL units the demuxer cut, and a player finds it at the end of a sound file, behind what an earlier one that failed has left in the buffer, and if nothing was left with exactly its NAL units; the buffer is empty after a picture that was written and not after one that was not; otherwise as for audio |
| Hls.HlsSource.OnAudio | trunk/src/app/srs_app_source.cpp:965-973 | a failure turns HLS off, so that between calls HLS is on only with an open segment; while it stays on the file stays sound and no picture is left over |
| Hls.HlsSource.OnVideo | trunk/src/app/srs_app_source.cpp:1055-1063 | the same for video |
| Hls.HlsSource.OnReloadVhostHls | trunk/src/app/srs_app_source.cpp:652-670 | a reload keeps that invariant and takes over the new configuration |
| Hls.PlayerSeesPicture | trunk/src/app/srs_app_hls.cpp:1195-1260 | a player that demultiplexes a segment's file finds the last picture with its times modulo 2^33 and its NAL units |
| Hls.LeftoverSpoils | trunk/src/app/srs_app_hls.cpp:653-677 | what a player finds is just the picture if and only if nothing was left over in front of it |
| Hls.PlayerHearsAudio | trunk/src/app/srs_app_hls.cpp:1128-1193 | a player that demultiplexes a segment's file finds the last audio, frame by frame |
| Hls.ContinuityOverSegments | trunk/src/app/srs_app_hls.cpp:182-197 | over every run, across all segments and whatever failed: the packets of audio and of video are numbered without a gap as long as their frames can be written, and the counters stand where the packets and the failures have brought them |
| JsonText.UnicodeToUtf8 | trunk/src/app/srs_app_json.cpp:577-587 | the UTF-8 form of a code point is written, surrogates and values above 0x10ffff are refused |
| JsonText.UnescapeString | trunk/src/app/srs_app_json.cpp:598-676 | unescaping into the buffer that is being read gives the string of the pure decoder, ended by a zero byte; nothing in front of the string and nothing that is still to be read changes |
| JsonParser.SkipBlockComment | trunk/src/app/srs_app_json.cpp:678-693 | a block comment ends at the first slash right behind a star |
| JsonParser.ParseKey | trunk/src/app/srs_app_json.cpp:695-739 | the key is in the buffer where its quote was, and the cursor behind the colon, or at the closing brace |
| JsonParser.ParseNumber | trunk/src/app/srs_app_json.cpp:780-801 | an integer is read as strtol with base 0 reads it, saturated to 64 bits; with a point or an exponent mark behind it the number is read as strtod reads it, hexadecimal ones included |
| JsonParser.ParseValue | trunk/src/app/srs_app_json.cpp:741-849 | the tree, whose strings are places in the overwritten buffer, is the value of the pure parser on the original text, for every text |
| JsonParser.ParseElements | trunk/src/app/srs_app_json.cpp:764-771 | the same for the elements of an array |
| JsonParser.ParseMembers | trunk/src/app/srs_app_json.cpp:753-763 | the same for the members of an object |
| Json.JsonObject.Set | trunk/src/app/srs_app_json.cpp:406-428 | a property of the name is erased and the new one appended |
| Json.JsonObject.GetProperty | trunk/src/app/srs_app_json.cpp:430-444 | the first property of the name is found |
| Json.JsonObject.EnsurePropertyString | trunk/src/app/srs_app_json.cpp:446-459 | a property is found only if it is a string |
| Json.BuildTree | trunk/src/app/srs_app_json.cpp:307-347 | the tree becomes a value of the API with the strings the buffer holds |
| Json.Loads | trunk/src/app/srs_app_json.cpp:349-368 | loading a text gives the value of the pure parser on what the text was, or nothing if it is empty, cannot be parsed or has no value |
| Json.SetThenLookup | trunk/src/app/srs_app_json.cpp:406-444 | setting a property changes it and no other, and never makes a second one of the name |
| Json.LastMemberWins | trunk/src/app/srs_app_json.cpp:307-347 | of several members with the same key the last one is found |
| JsonSyntax.DocumentIsRead | trunk/src/app/srs_app_json.cpp:598-863 | every text that is laid out by the rules of RFC 8259 (any white space, any escapes in either case, all numbers; without zero characters) is read as the value it denotes, integers saturated to 64 bits |
| JsonSyntax.RealIsRead | trunk/src/app/srs_app_json.cpp:780-801 | a number with a fraction or an exponent is read as the value that its digits have by their places, times the power of ten |
| JsonSyntax.ReadingAgreesIff | trunk/src/app/srs_app_json.cpp:598-676 | such a text is read alike with and without an encoder if and only if no string of it holds a unicode escape |
| JsonStrings.UnescapeAgreesIff | trunk/src/app/srs_app_json.cpp:598-676 | so is any string that is closed, well-formed or not |
| JsonRoundTrip.ParsePrint | trunk/src/app/srs_app_json.cpp:598-863 | parsing what is printed by RFC 8259, control bytes escaped, gives back every object, array, string without zero bytes, boolean, null, 64-bit integer and decimal number, among them all values of doubles (`JsonRoundTrip.DoubleIsDecimal`); without an encoder exactly if no string needs a unicode escape |
| JsonRoundTrip.LoadsLaidOut | trunk/src/app/srs_app_json.cpp:349-368 | loading a text of RFC 8259 gives the value it denotes with its unicode escapes as they are, which is the value it denotes if and only if it has none |
| JsonRoundTrip.LoadPrint | trunk/src/app/srs_app_json.cpp:349-368 | loading the text of a value of the API gives the value if and only if no string of it needs a unicode escape |
| JsonRoundTrip.Utf8RoundTrip | trunk/src/app/srs_app_json.cpp:577-587 | a code point has a UTF-8 form if and only if it is a scalar value, and a strict reader decodes that form to it |
| JsonStrings.EscapeIsDecoded | trunk/src/app/srs_app_json.cpp:630-661 | every escaped scalar value, alone or as a pair of surrogates and in digits of either case, is decoded to its UTF-8 form |
| JsonSyntax.BraceBehindColonEnds | trunk/src/app/srs_app_json.cpp:753-763 | a closing brace right behind a colon ends the object, and the key is forgotten |

## Left out

- JsonParser.ParseNumber: the values of doubles are exact; their rounding and overflow to infinity and the sign of zero are not modelled.
- Ingest.ReloadVhost: the handlers for the other directives of a vhost, which run before the ingest part and can stop the reload with an error, are not modelled.
- Flv.ReadAll: of the tag that is torn at the end of a file nothing is said, because the code goes on with what was in its buffer before.
- Flv.FlvFastDecoder.ReadSequenceHeader: nothing is promised once a header is torn, for the same reason.
- HlsCache.HlsCache.CacheVideo: for a parameter set whose length was stored before its bytes turned out to be missing, bytes that are not known are written; the code reads behind the set it had before, and if it had none its assertion that the pointer is not null ends the server.
- HlsRuns.PlaylistIsSafe: application and stream name stay the same over a run, as they do for the one source a muxer belongs to; the path, the fragment and the window may be reloaded at any time.
- Stream.ByteStream.Read1: of the bytes in front of a buffer, which a negative length can move the cursor to, nothing is said.
- AvcAac.AvcAacCodec.ReadNalus: once the cursor is in front of the payload, only the bound on the samples, the end of the loop and the samples taken before are stated.
- Flv.FlvEncoder.WriteTag: a single file write either appends all its bytes or fails without adding any.
- LiveQueue.RtmpJitter.Correct: the division of a rejected step by a rate is exact and truncated, where the code divides doubles; only its being clamped matters to the results.
- Dvr.DvrPlan.Reap: the metadata, the sequence headers that the hss plan asks for at each video keyframe, and the paths of files are not modelled.
- Source.LiveSource.CreateConsumer: for lengths that are not negative, because with a negative one sending the first message never ends; lengths are in milliseconds, which covers every whole number of seconds that the configuration gives.
- Source.LiveSource.OnReloadVhostQueueLength: for lengths that are not negative, for the same reason.
- JsonSyntax.DocumentIsRead: texts with a zero character in a string are not among those laid out, because a string ends at its first zero byte.
- Source.LiveSource.OnMetaData: the encoded metadata and the rates found in it are arguments; AMF0 is not part of this model.
- HlsMuxer.Muxer.WriteM3u8: a line of the playlist is written as a whole or not at all, and the three decimals of a duration are not formatted.
- Machine integers are unbounded, except where their width shows (bytes, wrapped lengths and counters, signed lengths, 64-bit JSON integers).
- Durations are exact: the rounding of doubles in sums and comparisons of segment durations is not modelled.
- Directive trees, segments and parsed JSON nodes are values: freeing memory and sharing of nodes do not show.
- The listen port and the environment of ffmpeg are taken to stay the same over a reload; the reload of transcoding engines, which compares directives in the same way, and their loop detection are left out.
- Forwarders, edge servers, transcoding, hooks, HTTP, bandwidth checks, statistics, logging and threads are left out, as are the RTMP handshake, chunks and AMF0.
- Concurrent publishers: checks and updates are separated by blocking calls, so the code alone guarantees nothing simple.
- The plan that records a whole session, which never cuts, and the player of FLV files over HTTP are left out.
