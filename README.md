# hl7.py in Dafny

A model of the core of `hl7.py`, a small Python library for HL7 v2.x
messages. These are the parts modelled:

- `parse`: turns a message into a dictionary of segments, fields,
  repetitions, components and subcomponents. It also keeps a `structure`
  skeleton that records field order.
- `toString`, with its helper `order`: writes the dictionary back out as
  HL7 text.
- `rep`: tells whether an entry is list-shaped.
- The message-building part of `listener.ack`.
- The Minimal Lower Layer Protocol (MLLP) envelope:
  - `sender.send` and `ack` wrap a message as `0x0B + message + 0x1C + 0x0D`;
  - the listener's receive loop collects chunks until one holds `0x1C`;
  - both sides strip the two marker bytes.

The modules follow that split:

- `Text`: Python's `split`, `join`, `replace`, clipped slicing and `str(n)`.
- `Hl7Model`: the dictionary shapes as datatypes, plus `rep`.
- `Hl7Parse`: `parse`. Each step is a specification function, and the
  implementation methods that mirror the loops of the source are proved
  against those functions.
- `Hl7Serialize`: `order` and `toString`, built the same way.
- `Hl7RoundTrip`: the round trip `toString(parse(m))`.
- `Mllp`: the envelope and the `Reassembler` buffer class.
- `Ack`: the acknowledgement builder.

A Python exception becomes a failure value:

- `Failure(EmptySeparator)` when `split` gets the empty separator. This can
  only happen when the message is shorter than eight characters, and only
  when a separator that is missing is actually used: `MSH|^~` still builds
  its dictionary.
- `Failure(NoShortcut)` when the short-cut entries `msg_date` … `msg_version`
  cannot be read.
- `None` from `toString` wherever the source raises: a `KeyError` or an
  `IndexError` on a missing entry (a structure line with no key names
  looks up the empty key and raises too), an `AttributeError` when `order` meets a
  dictionary of a segment whose name the key pattern rejects, and a
  `TypeError` when MSH is a list or a structure line names something that
  is not a segment entry.
- `None` from `ack` when the message has fewer than five characters or its
  first line fewer than twelve fields.

`parse('')` returns `False`; here it is `Failure(EmptyInput)`.

In these points the code does less than an HL7 codec is usually expected to
do, and the model follows the code:

- A header that is too short is not rejected up front. Parsing fails only
  where `split` is handed an empty separator.
- Header characters that are not distinct are not rejected at all.
- `toString` ends every segment with `\r`. The round trip is therefore
  byte-exact only for a message whose last segment is terminated
  (`RoundTripExact`).
- The occurrence counter of `toString` is keyed by the whole structure line
  (see Findings). Because of it, repeated segments are written in their
  original order only when they have equal field counts.

## Model

| member | source | states |
|---|---|---|
| Hl7Parse.DelimsOf | hl7.py:30-34 | Each separator is the character at its offset (3 to 7) of the raw text, or empty when the text ends before that offset. |
| Hl7Parse.SplitOn | hl7.py:77 | `split` succeeds exactly when the separator is non-empty; otherwise it fails with `EmptySeparator`. |
| Hl7Parse.ParseComponent | hl7.py:111-121 | A component is a plain string exactly when it lacks the subcomponent character, and then it is the text itself. It fails only on an empty subcomponent separator. |
| Hl7Parse.ParseComponents | hl7.py:103-123 | Components fail only on an empty subcomponent separator with at least one component. |
| Hl7Parse.ComponentsPointwise | hl7.py:103-123 | The component map has keys exactly 1..n. Key k is the k-th piece parsed as a component. |
| Hl7Parse.IndexedParts | hl7.py:113-119 | Subcomponent keys are exactly 1..n. Key k holds the k-th piece. |
| Hl7Parse.ParseRepetition | hl7.py:98-128 | A repetition is a scalar exactly when it lacks the component character, and then it is the piece itself; otherwise it is the component map of its pieces. It always succeeds when the separators are non-empty. |
| Hl7Parse.ParseRepetitions | hl7.py:93-131 | The repetition list has exactly one entry per piece. It succeeds whenever the separators are non-empty. |
| Hl7Parse.RepetitionsPointwise | hl7.py:93-131 | Entry i of the repetition list is piece i parsed as a repetition. |
| Hl7Parse.ParseField | hl7.py:92-174 | `MSH.2` is stored verbatim. Any other field becomes a list exactly when it holds the repetition character. It succeeds when the separators are non-empty. |
| Hl7Parse.KeyIndexFirst | hl7.py:176 | `fields.index(field)` finds the first position whose key name equals the text, and no earlier one does. |
| Hl7Parse.ReindexKeeps | hl7.py:176-177 | Rewriting one entry of `fields` and appending keeps the multiset of keys, plus the new one. |
| Hl7Parse.ParseFields | hl7.py:80-179 | The field loop fails only with `EmptySeparator`, and never when the separators are non-empty. |
| Hl7Parse.FieldsOfSegment | hl7.py:80-179 | Key set: `MSH.1` (the field separator) for MSH, then consecutive numbers from 2 for MSH and from 1 otherwise. Each field is its piece parsed, with the MSH-2 exemption. |
| Hl7Parse.ParseBody | hl7.py:77-185 | A segment body fails exactly when its field loop fails. |
| Hl7Parse.KeysOfSegment | hl7.py:176-182 | The structure line of a segment holds each field number exactly once. |
| Hl7Parse.KeysInOrder | hl7.py:176-182 | When no field text starts with `SEG.`, the structure line lists the field numbers in order. |
| Hl7Parse.ParseSegment | hl7.py:46-185 | One segment parses whenever the separators are non-empty. |
| Hl7Parse.AddSegment | hl7.py:52-68 | Adding a segment keeps the dictionary keys equal to the names in `segList`. |
| Hl7Parse.ParseSegments | hl7.py:44-189 | The segment loop fails only with `EmptySeparator`. It succeeds with non-empty separators, and its dictionary keys are exactly the names in `segList`. |
| Hl7Parse.SegmentFolding | hl7.py:44-189 | `segments` is `FirstSeen` of the non-blank names, which lists each of them (`FirstSeenMembers`) once (`FirstSeenDistinct`), in first-encounter order (`FirstSeenOrder`). A name seen once maps to its dictionary. A name seen k > 1 times maps to the list of its k dictionaries, in order. |
| Hl7Parse.FirstSeenDistinct | hl7.py:52-68 | No name occurs twice in the list of segment names: a name already seen is not appended again. |
| Hl7Parse.FirstSeenOrder | hl7.py:52-68 | The segment names are listed in order of first appearance: any appearance of a name listed later comes after an appearance of every name listed before it. |
| Hl7Parse.StructureOf | hl7.py:73-185 | With no blank segment, line j of the structure is segment j's name and its field keys. |
| Hl7Parse.RepSegmentParsed | hl7.py:406-411 | `rep(msg[SEG])` holds exactly when the segment name occurs more than once. The entry's occurrences are its dictionaries in encounter order. |
| Hl7Parse.ParseSpec | hl7.py:17-201 | Empty input fails with `EmptyInput`, and only empty input does. Every text of at least eight characters parses. |
| Hl7Parse.Stored | hl7.py:195 | The segment entries of the result are those built, except an entry named `raw`, which the raw text overwrites. |
| Hl7Parse.ParseMsg | hl7.py:17-211 | `parse` succeeds exactly when the dictionary is built and the short-cut entries can be read. The dictionary is then the one built. Empty input fails with `EmptyInput`. |
| Hl7Parse.SubcomponentsOf | hl7.py:166-170 | The subcomponent loop builds the 1-based map of the pieces. |
| Hl7Parse.ComponentsOf | hl7.py:139-159 | The component loop computes `ParseComponents`. |
| Hl7Parse.RepetitionsOf | hl7.py:95-131 | The repetition loop computes `ParseRepetitions`. |
| Hl7Parse.FieldOf | hl7.py:89-174 | The body of the field loop computes `ParseField`. |
| Hl7Parse.FieldsOf | hl7.py:77-185 | The field loop computes the field dictionary and the structure line, `ParseBody`. |
| Hl7Parse.FieldAt | hl7.py:87-179 | One pass of the field loop either fails, and then the whole segment fails, or extends the dictionary and structure line to one more field. |
| Hl7Parse.SegmentOf | hl7.py:46-185 | One segment line is parsed as `ParseSegment`. |
| Hl7Parse.Parse | hl7.py:17-211 | The method computes `ParseMsg`, failures included. |
| Hl7Serialize.SortedKeysOrdered | hl7.py:232-235 | `order` lists every key exactly once, in strictly increasing order. |
| Hl7Serialize.SortedKeysUnique | hl7.py:232-235 | That list is the only strictly increasing list of the keys. |
| Hl7Serialize.SortedKeysRange | hl7.py:232-235 | For keys 1..n it is `[1, ..., n]`. |
| Hl7Serialize.Order | hl7.py:226-235 | `order` fails on a non-empty dictionary of a segment whose name the key pattern rejects. Otherwise it returns the keys strictly increasing, each exactly once. |
| Hl7Serialize.RenderSubs | hl7.py:383-386 | The subcomponents are joined in key order, or the pattern fails. |
| Hl7Serialize.RenderValue | hl7.py:377-389 | A scalar is written as is. A component map is joined in key order, or the pattern fails. |
| Hl7Serialize.RenderField | hl7.py:347-392 | A field is written as its text, with repetitions joined by `rep`. It is `None` exactly when it holds a dictionary and the name is rejected. |
| Hl7Serialize.SepsOf | hl7.py:241-246 | The separators read from `MSH.2` are at most one character each. |
| Hl7Serialize.Head | hl7.py:342 | `seg[0:3]` of the structure line: the name itself for a name of three or more characters; a two-character name followed by a vertical bar; a one-character name followed by a vertical bar and its own first character, the start of its first key name. |
| Hl7Serialize.RenderLine | hl7.py:260-398 | One structure line is written for occurrence i of its entry, as `LineText`: a line without key names fails, since its one empty key piece is looked up and raises, and a list entry fails when occurrence i is past its end. |
| Hl7Serialize.NameMatchesPlain | hl7.py:260-262 | A name the key pattern accepts holds no vertical bar and is not `raw`, so its structure line splits back into that name. |
| Hl7Serialize.RenderNext | hl7.py:254-398 | One pass of the structure loop: a failure makes the whole walk fail, and a success extends it by one line. A line whose name holds a vertical bar, has no entry, or has no key names fails, as the lookup by the part of the line before its first vertical bar does. |
| Hl7Serialize.ToString | hl7.py:217-401 | The method computes `ToStringSpec`, with the occurrence counter keyed by the whole structure line as written. |
| Hl7RoundTrip.SubsRoundTrip | hl7.py:160-172 | Subcomponents split and joined again give the text back. |
| Hl7RoundTrip.ComponentRoundTrip | hl7.py:147-157 | A parsed component is written back as its text. |
| Hl7RoundTrip.ComponentsRoundTrip | hl7.py:137-159 | Components parsed and joined in key order give the text back. |
| Hl7RoundTrip.RepetitionRoundTrip | hl7.py:98-128 | A parsed repetition is written back as its piece. |
| Hl7RoundTrip.RepsRoundTrip | hl7.py:92-131 | Repetitions parsed and joined by `rep` give the field text back. |
| Hl7RoundTrip.FieldRoundTrip | hl7.py:92-174 | Every parsed field is written back as its text. |
| Hl7RoundTrip.RenderRoundTrip | hl7.py:347-392 | For a name the pattern accepts, rendering a parsed field succeeds with its text. |
| Hl7RoundTrip.BodyRoundTrip | hl7.py:71-185 | For a well-formed segment, its fields written in structure order give back the field separator and the body. |
| Hl7RoundTrip.LineRoundTrip | hl7.py:338-398 | A well-formed segment line is written back as the line plus `\r`. |
| Hl7RoundTrip.MshSeps | hl7.py:241-246 | `toString` reads back the same four separators `parse` read from the header. |
| Hl7RoundTrip.StructureLineOf | hl7.py:176-185 | The structure line of a well-formed segment is its field numbers in order. |
| Hl7RoundTrip.RoundTripWith | hl7.py:252-401 | For a well-formed message: if equal-named lines share their counter, the result is the message with `\n` turned into `\r`, each segment followed by `\r`. |
| Hl7RoundTrip.RoundTripFixed | hl7.py:252-401 | With one counter per segment name, every well-formed message round-trips that way. |
| Hl7RoundTrip.RoundTripAsWritten | hl7.py:262-336 | With the counter as written, a well-formed message round-trips when same-named segments have equal field counts. |
| Hl7RoundTrip.TrailingReturn | hl7.py:48-49 | A final `\r` adds only a blank segment, which is skipped: the dictionary and the structure are unchanged. |
| Hl7RoundTrip.RoundTripExact | hl7.py:17-401 | A well-formed message terminated by `\r` is reproduced byte for byte (with `\n` read as `\r`). |
| Hl7RoundTrip.RoundTripExactAsWritten | hl7.py:17-401 | The same holds for the code as written, given equal field counts. |
| Hl7RoundTrip.CounterByLineRestarts | hl7.py:262-336 | As written, after a header, two lines of one name where the second has fewer fields: the second is written back from the first's fields, cut to its own field count. |
| Hl7RoundTrip.CounterByLineRepeatsOccurrence | hl7.py:268-274 | For any well-formed header followed by an OBX line with fields `a`, `b` and an OBX line with field `c`, `toString(parse(m))` writes the last line as OBX with field `a`. |
| Hl7RoundTrip.CounterByNameAdvances | hl7.py:268-274 | With one counter per segment name, the same message comes back with its last line, OBX with field `c`, unchanged. |
| Mllp.Wrap | hl7.py:593-599 | The frame is the start byte, the message, the end byte and a carriage return. |
| Mllp.Strip | hl7.py:612-613 | Stripping removes every start and end byte and leaves text without them unchanged. |
| Mllp.StripConcat | hl7.py:467-468 | Stripping distributes over concatenation, so it keeps every other character in order. |
| Mllp.StripWrap | hl7.py:612-613 | Stripping a frame gives back the message plus the envelope's carriage return, when the message holds neither marker byte. |
| Mllp.Reassembler.constructor | hl7.py:419 | The chunk buffer starts empty. |
| Mllp.Reassembler.Feed | hl7.py:456-468 | The buffer and the result after one chunk follow `FeedStep`. An empty chunk changes nothing. A chunk without `0x1C` is appended. A chunk with it delivers the stripped concatenation and empties the buffer. |
| Mllp.FeedPartial | hl7.py:456-460 | Non-empty chunks without the end byte pile up in the buffer and deliver nothing. |
| Mllp.LastFeed | hl7.py:461-468 | The chunk with the end byte delivers the stripped concatenation of everything kept before it and empties the buffer. |
| Mllp.Reassembly | hl7.py:456-468 | A frame of `m` fed in non-empty chunks, with `0x1C` only in the last, is delivered exactly once, as `m` plus `\r`, and leaves the buffer empty. |
| Ack.Terminator | hl7.py:489-493 | The terminator is `\n` or `\r`. |
| Ack.JoinHeader | hl7.py:499-509 | The `while i < 12` loop gives the first twelve fields joined by the field separator, with MSH-9 retyped. |
| Ack.BuildAck | hl7.py:480-521 | `ack` returns the framed acknowledgement for a message with a component separator and twelve header fields, and `None` where the source raises. |
| Ack.AckHeader | hl7.py:499-510 | The ACK's MSH splits into exactly twelve fields, equal to the original's except MSH-9. MSH-9's first component is `ACK` and its other components are kept. |
| Ack.AckTypeComponents | hl7.py:502-506 | The retyped MSH-9 splits into `ACK` followed by the original's later components. |
| Ack.AckSegments | hl7.py:512 | The acknowledgement is the MSH segment and the MSA segment, each followed by the terminator. |
| Ack.MsaFields | hl7.py:512 | The MSA segment's fields are `MSA`, the status and MSH-10 of the original. |
| Ack.SeparatorsNotTerminator | hl7.py:486-498 | In a message that can be acknowledged, neither separator is the terminator. |
| Ack.AckUnwrapped | hl7.py:515-521 | The sender, stripping the frame, gets the acknowledgement followed by `\r`. |

## Left out

- Sockets are not modelled: creation, bind, listen, timeouts, accept, recv and send, on both the listener and the sender. They are I/O.
- `listener.stop`, `sender.start`, `sender.stop` and `remoteAddress` are not modelled. They only drive sockets or print.
- The generator and `getMsg` are not modelled. The model's `Feed` returns each completed message instead of yielding it.
- The UTF-8 encoding and decoding around the socket calls is not modelled. They are library calls, and bytes and characters are treated as the same codes.
- The class-level flags `ackFlag`, `sendAck` and `expectAck` are not modelled. They only gate socket calls.
- `largeMsg` is a class attribute shared by every listener. Here each `Reassembler` object owns its buffer, so sharing between listeners is not captured.
- A sender's acknowledgement that arrives in more than one `recv` of 4096 bytes is not modelled. The model strips the frame as a whole.
- The escape character is read by `parse` and `toString` but never used. It is carried in `Delims` and has no logic.
- `order`'s regular expressions are modelled by the key pattern `NameMatches`: three characters from `[A-Z0-9]`, then the index. The index is read from the key number the model stores. Keys are numbers rather than strings, so a key text that the pattern mis-reads cannot arise.
- Segment names longer than three characters are treated as rejected by the pattern. `parse` never builds them.
- `structure` is kept as a list of `Line(name, keys)` instead of the joined string `SEG|SEG.1|...`. Splitting that string on `|` gives back the recorded name exactly when the name holds no `|`. A name holding `|` makes `toString` return `None`: for any dictionary `parse` builds, the source then raises a `KeyError` or an `IndexError` (hl7.py:260-282). For a dictionary built by hand it might instead find a different entry by the name's first piece; that case is not modelled.
- `msg['raw']`, `msg['segments']` and `msg['status']` are kept in fields of their own. `toString` reads none of them. A segment named `raw` has its entry overwritten by the raw text (hl7.py:195), so it is missing from the segment entries (`Stored`), and its structure line fails in `toString`, where the source raises a `TypeError` (hl7.py:347).
- The short-cut entries are computed by `Hl7Parse.Shortcuts` only after checking that they exist.
- `toString('')` returning `False` is not modelled. The model's argument is always a dictionary.
- `toString` reads `MSH.1` and `MSH.2` as text. A dictionary where they are not text is treated as a failure, where Python would slice whatever is there.
- Hl7Serialize.ToString: the `seg_dict` entry is written after the line is rendered rather than before. When the line fails, the whole result is `None` either way.
- Ack.BuildAck: a message too short for the separators, or with fewer than twelve header fields, is rejected before the loop. The source raises inside the loop, and nothing it did by then is visible.
- Hl7RoundTrip.RoundTripWith: needs `WellFormed`, which is stricter than "segments terminated by `\r` with names from `[A-Z0-9]`":
  - MSH must come first and only first;
  - the encoding characters must differ from the field separator and must not be line ends;
  - every line must carry the field separator at offset 3;
  - no field text may start with its own segment's key prefix `SEG.`, because `fields.index` would renumber the structure line (hl7.py:176-177).
- Hl7RoundTrip.RoundTripFixed: holds only for messages that are `WellFormed`, with the conditions listed under RoundTripWith above.
- Hl7RoundTrip.RoundTripAsWritten: holds only for messages that are `WellFormed` and whose same-named segments have equal field counts.
- Hl7RoundTrip.RoundTripExact: holds only for messages that are `WellFormed` and end in `\r`.
- Hl7RoundTrip.RoundTripExactAsWritten: holds only for messages that are `WellFormed`, end in `\r` and whose same-named segments have equal field counts.
- Hl7RoundTrip.CounterByLineRepeatsOccurrence: holds for any header that is `WellFormed` on its own line and separates fields with `|`. No particular twelve-field header is shown to also carry the short-cut entries `parse` reads at hl7.py:204-208.
- Hl7RoundTrip.CounterByNameAdvances: the same condition on the header.

## Findings

| source | as written | input that shows it | evidently intended | confidence | as-written member | corrected member |
|---|---|---|---|---|---|---|
| hl7.py:268-274 | `seg_dict` and `segList` in `toString` are keyed by the whole structure line (the segment name with all its field keys), so a repeated segment whose occurrences differ in field count restarts its occurrence counter at 0 | a twelve-field MSH header (so that `parse` returns), then OBX with fields `a`, `b`, then OBX with field `c`: `toString(parse(m))` writes the last line with field `a` instead of `c` | one occurrence counter per segment name, so the k-th line of a name writes the k-th occurrence | not executed | Hl7RoundTrip.CounterByLineRepeatsOccurrence, Hl7RoundTrip.CounterByLineRestarts | Hl7RoundTrip.CounterByNameAdvances, Hl7RoundTrip.RoundTripFixed |
