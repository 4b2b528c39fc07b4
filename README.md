# Instruction codec and fragment reassembly

A Dafny model of `networkinstruction.cpp` from the mosh transport layer. It has two parts:

- **Instruction codec.** `Instruction::tostring` writes an instruction as a fixed 34-byte header followed by the raw diff bytes. The header holds four big-endian 64-bit state numbers (`old_num`, `new_num`, `ack_num`, `throwaway_num`). It ends with a big-endian 16-bit word that carries `final` in bit 15 and `fragment_num` in bits 0-14. The decoding constructor `Instruction(string&)` reads these fields back.
- **Fragment reassembly.** `FragmentAssembly` rebuilds one logical instruction from its fragments. Fragments may arrive out of order or more than once, and a fragment of a newer instruction supersedes the old one. `add_fragment` stores fragments and reports completion. `get_assembly` concatenates the stored diffs in index order and resets the store.

## Files

- `results.dfy` (module `Results`): the `Option` and `Result` datatypes.
- `bytes.dfy` (module `Bytes`): bytes, 16- and 64-bit unsigned integers, and big-endian composition and decomposition.
- `instruction.dfy` (module `Instructions`): the `Instruction` datatype, `network_order_string`, the fragment-word packing, `Encode` (`tostring`), `Decode` (the decoding constructor), `operator==`, and both round trips.
- `assembly.dfy` (module `Fragments`): `same_template`, the reassembly state, `add_fragment` and `get_assembly`, and their invariant. Each operation comes twice:
  - a function on an `Assembly` value (`AddStep`, `Retrieve`), whose cases are stated as postconditions or as lemmas beside it;
  - a method of the class `FragmentAssembly` that updates the fields in place and promises that function's result.
- `reassembly.dfy` (module `Reassembly`): what reassembly achieves over a whole delivery sequence (order independence), and the fact that the template survives retrieval.
- `scenarios.dfy` (module `Scenarios`): sample deliveries: a single-fragment encoding, a lone fragment, three fragments out of order, and three consequences of the code as written: truncation by a low-numbered final fragment, the sentinel state number, and a duplicate that differs only in `final`.

## Modelling decisions

- **Byte order.** `htobe64`, `htobe16`, `be64toh` and `be16toh`, together with the `uint64_t*` and `uint16_t*` casts, become explicit big-endian composition over bytes at offsets 0, 8, 16, 24 and 32. The model therefore does not depend on the host's byte order.
- **The fragment word.** `(final << 15) | fragment_num` is written as `(final ? 0x8000 : 0) + fragment_num`. For `fragment_num < 0x8000` the two are the same. On decode, `(w & 0x8000) >> 15` and `w & 0x7FFF` become `w / 0x8000` and `w % 0x8000`.
- **Empty slots.** These are modelled literally, as in the source. A fragment slot is an `Instruction`, and it counts as filled exactly when its `old_num` is not `uint64_t(-1)`. Resizing pads the store with `Blank`, an instruction whose state numbers are all `uint64_t(-1)` and whose diff is empty.
- **Initial template.** `current_template` is an `Option`. `None` is the state before any fragment has arrived, and no fragment matches it. This departs from the source for one input. There, the default `current_template` is presumably the all-`uint64_t(-1)` instruction, like `Blank`. A first fragment whose four state numbers are all 2^64-1 would then match it and take the same-template branch. `current_template` would stay the default, and a later `get_assembly` would copy fragment number 0xFFFF and `final` false. In the model, that fragment restarts the assembly like any other first fragment.
- **Assertions.** The assertion at networkinstruction.cpp:29 becomes a precondition of `Encode`, because the encode path is trusted. The assertions at :45, :79, :95 and :104 check untrusted input, so they become typed errors:
  - `TruncatedHeader`;
  - `DuplicateMismatch`: the state is unchanged, and the final-flag step is not reached;
  - `FragmentCountExceeded`: the state is what the code had built when the assertion fired;
  - `IncompleteAssembly`: the state is unchanged.
- **Equality ignores `final`.** This follows `operator==`. A copy of a stored fragment that differs only in `final` therefore passes as a duplicate, and its `final` flag still fixes the total.
- **Truncation on a final fragment.** `fragments.resize(fragments_total)` is modelled as written. A final fragment numbered below stored fragments drops them without decrementing `fragments_arrived`. Completion can then be reported while a slot below the total is blank, whose empty diff contributes nothing (`Scenarios.FinalTruncatesStore`).
- **The template survives retrieval.** `get_assembly` keeps `current_template`. A later fragment with the same template takes the "same template" branch. A result retrieved after that copies the fragment number and `final` flag of the fragment that started the template, not those of the new instruction (`Reassembly.RetrievalKeepsTemplate`).
- **Retrieval does not return the object to its freshly constructed state.** `get_assembly` keeps `current_template`.
- **Fragment numbers on add are 16-bit.** `tostring` encodes only 15-bit fragment numbers, but `add_fragment` accepts any 16-bit `fragment_num`, so the store may hold up to 65536 slots.

## Model

| member | source | states |
|---|---|---|
| `Bytes.FromBigEndian` | networkinstruction.cpp:48-52 | the value read from a big-endian byte string fits in that many bytes |
| `Bytes.BigEndian` | networkinstruction.cpp:8-18 | produces exactly `width` bytes; for a value that fits, reading them back in big-endian order gives the value |
| `Bytes.BigEndianOfValue` | networkinstruction.cpp:46-52 | every byte string is the big-endian encoding of the value it denotes |
| `Bytes.BigEndianInjective` | networkinstruction.cpp:46-52 | two byte strings of the same width that denote the same value are equal |
| `Instructions.NetworkOrder64` | networkinstruction.cpp:8-12 | eight bytes in network order that read back as the input |
| `Instructions.NetworkOrder16` | networkinstruction.cpp:14-18 | two bytes in network order that read back as the input |
| `Instructions.PackFragmentWord` | networkinstruction.cpp:29-31 | for a fragment number below 0x8000, the word's top bit is `final` and its low fifteen bits are the fragment number |
| `Instructions.UnpackFragmentWord` | networkinstruction.cpp:52-54 | splits a word into a top bit and a fragment number below 0x8000 that pack back into the same word |
| `Instructions.Encode` | networkinstruction.cpp:20-40 | the length is 34 plus the diff's length; the four state numbers sit big-endian at offsets 0, 8, 16 and 24, the fragment word at offset 32, and the diff from offset 34 on |
| `Instructions.FieldAt` | networkinstruction.cpp:46-52 | a field of `width` bytes read at a byte offset is below 256 to the power `width` |
| `Instructions.Decode` | networkinstruction.cpp:42-57 | fails exactly on records shorter than the 34-byte header; otherwise the fields are read at offsets 0, 8, 16, 24 and 32, `final` is bit 15 of the word, the fragment number is the low 15 bits, and the diff is the rest |
| `Instructions.Equivalent` | networkinstruction.cpp:120-125 | two instructions are equal exactly when they differ at most in `final` |
| `Instructions.DecodeEncode` | networkinstruction.cpp:20-57 | decoding an encoded instruction whose fragment number is below 0x8000 reproduces all seven fields, `final` included |
| `Instructions.EncodeDecode` | networkinstruction.cpp:20-57 | every record of at least 34 bytes decodes successfully and re-encodes to itself |
| `Instructions.SlicesEqual` | networkinstruction.cpp:20-40 | two records that agree on every header field and on the diff are equal |
| `Fragments.SameTemplate` | networkinstruction.cpp:59-63 | two instructions share a template exactly when they differ at most in fragment number, `final` and diff |
| `Fragments.Resize` | networkinstruction.cpp:91 | `vector::resize`: exactly n slots, the old ones kept below the old length, blank slots above it |
| `Fragments.Filled` | networkinstruction.cpp:78 | the sentinel test: a slot is filled exactly when its `old_num` is not `uint64_t(-1)`; a predicate without an ensures of its own, used by `CountFilled` and the well-formedness invariant |
| `Fragments.CountFilled` | networkinstruction.cpp:77-78 | the number of slots whose `old_num` is not the sentinel, at most the store's length |
| `Fragments.CountFilledFull` | networkinstruction.cpp:77-78 | the count equals the length exactly when every slot is filled |
| `Fragments.CountFilledResize` | networkinstruction.cpp:82-91 | padding adds no filled slot; truncation removes some or none |
| `Fragments.CountFilledUpdate` | networkinstruction.cpp:84 | writing a slot changes the count by what leaves and what enters that slot |
| `Fragments.StoreCount` | networkinstruction.cpp:81-85 | storing into an unfilled slot adds exactly one filled slot, or none for a fragment carrying the sentinel |
| `Fragments.Finish` | networkinstruction.cpp:89-99 | a final fragment sets the total to its number plus one and resizes the store to exactly that; an error is reported exactly when a known total is below the counter; completion is reported exactly when the counter equals the total |
| `Fragments.AddStep` | networkinstruction.cpp:65-100 | the whole of `add_fragment` as a function on the assembly's value; it has no ensures of its own, and its contract is carried by `AddStepRestart`, `AddStepDuplicate`, `AddStepNewSlot`, `AddStepCompletion` and `AddStepWellFormed` |
| `Fragments.Stored` | networkinstruction.cpp:80-86 | the new-slot branch: grow the store to cover the index if needed, write the fragment, count it; it has no ensures of its own, and its contract is carried by `AddStepNewSlot` and `StoreCount` |
| `Fragments.AddStepRestart` | networkinstruction.cpp:67-74 | a fragment of a new template discards the earlier slots: only slot `fragment_num` is filled, the store has `fragment_num+1` slots, the counter is 1, the total is unknown unless the fragment is final, and completion is reported only for a lone final fragment 0 |
| `Fragments.AddStepDuplicate` | networkinstruction.cpp:76-79 | a fragment whose slot is filled leaves the template and counter as they were; a copy that differs from the stored one is refused and changes nothing; an equal copy goes straight to the final-flag step with the store as it was, so a retransmitted final fragment truncates the store like the first one did, and an equal copy that is not final changes nothing |
| `Fragments.AddStepNewSlot` | networkinstruction.cpp:80-86 | a fragment for an unfilled slot: the store grows to cover the index, the fragment is stored there, every other slot is kept (blank where the store grew), and the counter rises by exactly 1 |
| `Fragments.AddStepCompletion` | networkinstruction.cpp:89-99 | except for a refused duplicate, a final fragment fixes the total and the store's length, and failure is reported exactly when the counter exceeds a known total; the result is true exactly when the counter equals the total, which for a well-formed state is at least 1 |
| `Fragments.AddStepWellFormed` | networkinstruction.cpp:65-100 | keeps the invariant: no template means an empty assembly; a known total lies between 1 and the store's length; filled slot i holds fragment i of the current template; the counter never undercounts the filled slots |
| `Fragments.RestartWellFormed` | networkinstruction.cpp:68-74 | restarting on a new template yields a well-formed state |
| `Fragments.StoreWellFormed` | networkinstruction.cpp:80-86 | storing a fragment of the current template in an unfilled slot keeps the invariant |
| `Fragments.Concat` | networkinstruction.cpp:109-111 | the diffs of a run of slots joined in index order, as the loop appends them; it has no ensures of its own, and its contract is carried by `ConcatAppend` and `ConcatSlot` |
| `Fragments.ConcatAppend` | networkinstruction.cpp:109-111 | concatenating the diffs of two runs of slots is concatenating the two results |
| `Fragments.ConcatSlot` | networkinstruction.cpp:109-111 | slot i's diff occupies its own place in the concatenation, after the diffs of slots 0..i-1 |
| `Fragments.Retrieve` | networkinstruction.cpp:102-118 | refused, with nothing changed, unless the counter equals the total. Otherwise returns the current template (its fragment number and `final` included) whose diff is that of slots 0..total-1 in index order. Afterwards the store is empty, the counter is 0, the total is unknown, the template is unchanged, and a second retrieval is refused |
| `Fragments.FragmentAssembly.constructor` | networkinstruction.cpp:113-115 | starts with an empty store, counter 0, total unknown (the values `get_assembly` resets to) and no template |
| `Fragments.FragmentAssembly.AddFragment` | networkinstruction.cpp:65-100 | updates the four fields in place to the new state given by `AddStep`, and returns its outcome |
| `Fragments.FragmentAssembly.FinishFragment` | networkinstruction.cpp:89-99 | the final-flag step, the count check and the completion test update the fields in place to the state given by `Finish`, and return its outcome; called with a template set and the store covering the fragment's index, it keeps the invariant |
| `Fragments.FragmentAssembly.GetAssembly` | networkinstruction.cpp:102-118 | its loop concatenates the slot diffs, and the new fields and the result are those given by `Retrieve` |
| `Reassembly.TracksComplete` | networkinstruction.cpp:94-99 | during an orderly delivery, the counter equals the total exactly when every fragment has arrived, and then the store holds exactly the fragments |
| `Reassembly.Step` | networkinstruction.cpp:75-99 | one more delivery of a fragment of the split: stored if new, ignored if a duplicate, and completion is reported exactly when all fragments have now arrived |
| `Reassembly.RunTracks` | networkinstruction.cpp:65-100 | after any non-empty sequence of deliveries of the split's fragments, slot i holds fragment i once it has been delivered and is blank otherwise, the counter is the number of filled slots, the total is known exactly once the last fragment arrived, and the j-th call reported completion exactly when the first j+1 deliveries covered every fragment |
| `Reassembly.OrderIndependence` | networkinstruction.cpp:65-118 | for fragments 0..N-1 of one template with `final` only on N-1, fed in any order with repetitions to an assembly holding another template (or one emptied by retrieval): each call reports true exactly when every fragment has arrived, and never fails; afterwards retrieval yields the template with their diffs concatenated in index order |
| `Reassembly.RetrievalKeepsTemplate` | networkinstruction.cpp:113-115 | after a retrieval, a fragment of the same template is treated like the first fragment to a fresh assembly, except that the old template is kept |
| `Scenarios.SingleFragmentEncoding` | networkinstruction.cpp:20-57 | fragment 0 with `final` and diff "hello" encodes to 39 bytes whose fragment word is 0x80 0x00, and decodes back to itself |
| `Scenarios.SingleFragmentAssembly` | networkinstruction.cpp:65-118 | a lone final fragment 0 completes at once and is retrieved unchanged |
| `Scenarios.ThreeFragmentsOutOfOrder` | networkinstruction.cpp:65-118 | fragments "A", "B", "C" delivered in the order 2, 0, 1 report false, false, true, and retrieval yields "ABC" |
| `Scenarios.FinalTruncatesStore` | networkinstruction.cpp:89-92 | after fragments 0 and 3, final fragment 2 reports completion with slot 1 blank; retrieval drops fragment 3 |
| `Scenarios.SentinelStateCountedTwice` | networkinstruction.cpp:77-85 | a fragment whose `old_num` is the sentinel is counted again on every delivery |
| `Scenarios.FinalFlagOnDuplicate` | networkinstruction.cpp:79-95 | a copy of fragment 1 marked `final` passes as a duplicate, then sets the total to 2 while 3 fragments are counted, and is refused |
| `Scenarios.MismatchedDuplicate` | networkinstruction.cpp:77-79 | a second copy of a stored fragment with a different diff is refused and changes nothing |

## Left out

- Host byte order, alignment and the raw pointer casts: replaced by explicit big-endian arithmetic, so the model states the wire format and not how a particular host produces it.
- `networktransport.hpp` is not part of this model. The field types (`uint64_t` state numbers, `uint16_t` fragment number, `int` counters), the default `Instruction` constructor and `inst_header_len = 34` are assumptions taken from their uses in `networkinstruction.cpp`. The constructor of `FragmentAssembly` is modelled as the empty state described above.
- The default `current_template`, which `networktransport.hpp` would define, is modelled as `None`. A first fragment whose four state numbers are all 2^64-1 is therefore treated as a new template. The source would match it against the default instruction instead (see "Initial template" above).
- Process termination on a failed `assert`: each assertion is a precondition (encode) or a typed error result (decode and reassembly).
- Fragments.FragmentAssembly.AddFragment: keeps `fragments_arrived` and `fragments_total` as unbounded integers. This is faithful for any realistic number of deliveries, but it does not model the wrap-around of a C++ `int` after 2^31 deliveries of a sentinel-numbered fragment.
- `std::vector::at` throwing `out_of_range`: it cannot happen here, because the invariant guarantees that every index used is within the store.
- Memory allocation and its failure, and the cost of resizing the store.
- The datagram transport, encryption, splitting a diff into fragments, and retransmission and acknowledgment scheduling: none of these is in `networkinstruction.cpp`. The splitter's side of the contract appears only as the precondition `Reassembly.Split` of the order-independence lemma.
