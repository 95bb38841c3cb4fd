# Lubyk's wire format, assembler and queues, in Dafny

Proofs about parts of the Lubyk sources. Each part has a model that does what the C or C++ code does, step by step
where that works in place, and a specification that does not share its shape.

* **MessagePack.** `Format` is the format as a recursive grammar, in its older form (raw strings only).
  `Machine.Context` is the resumable stack machine of unpack_template.h; in every state it means what the grammar means.
  `Packing.Packer` is the encoder; `WireFormat` says which bytes both of them mean, `Compaction` and `Equality` relate
  the two directions. `Unpacker` adds the input buffer that decoded strings point into, with the reference counts that
  it shares with the zones handed out, over an explicit heap; `StreamReader` uses it on a stream cut into pieces.
* **Numbers.** `Doubles` gives the real values of float and double patterns, and `Rounding` the conversion of integers.
* **DynASM for ARM.** `DasmUnit` records what the buffers hold; the three passes of `Dasm.Assembler` all walk the same
  recorded actions. `DasmLink` and `DasmCode` define exact offsets and the code of an assembler that knows every
  address. `Labels` says which definition a reference is meant to reach, and `LabelChains` how that is threaded through
  the buffers. `DasmFields` reads patched words as the processor does, and `DasmLanding` says where the code leads.
  `DasmListing` says what a sequence of calls means without buffers, and proves whole runs against it.
* **Lua bridge.** `Lua` has values, tables on a heap and the stack of the C interface; `LuaPack` and `LuaUnpack` are the
  two directions and `LuaBridge` the way there and back. Graphs of tables may be cyclic.
* **zmq::Poller.** `PollTable` is a table of poll items and its view as a finite map, `Poller` the three arrays.
* **lk::Fifo.** `Fifo` is the ring with its pipe, `FifoThreads` any number of threads in single steps.
* **lk::Socket** (`SocketReader`) and **vrefbuffer** (`VrefBuffer`): buffered reads over a connection that delivers any
  pieces, and a list of ranges over a flat memory.

What the outside world decides is a parameter or an arbitrary choice: addresses from the allocator, the sizes that recv
returns, the events of zmq_poll, the order of threads, the displacements of external symbols.

Where the code does less than it seems to promise, it is modelled as it is:

* An argument list comes back from the Lua bridge as itself exactly when it has several arguments, or one that is no
  array with items (`LuaBridge.WhatComesBack`).
* Between `poll` and `events`, a new poll item can inherit the events of a removed one. Right after it is added, it
  would be reported exactly when its slot had events left over and fewer items have events than were counted
  (`PollTable.AddedIsReported`, `PollTable.StaleEventsAreReported`); a removal that follows may still move it to the
  front (`PollTable.MovedEventsAreReported`). A caller who removes nothing between the two calls gets exactly the
  handles that the poll found (`Poller.Poller.Events`).
* `modify` writes in front of its array exactly for handles in range that are not live (`Poller.Poller.Modify`,
  `Poller.ModifyAfterRemove`).
* The range checks for offsets admit one value too many on each side: 256 and -256 for split offsets, 4096 and -4096
  for the others (`DasmActions.SplitOffsetReaches`, `DasmActions.SplitRangeCheckIsTooWide`,
  `DasmActions.OffsetReaches`, `DasmActions.OffsetRangeCheckIsTooWide`).
* The loop of `dasm_link` that marks references to undefined globals skips the first ten globals
  (`DasmLink.ReferenceIsMarked`).
* An integer tagged negative whose value is not negative is packed, but comes back tagged positive
  (`Compaction.RoundTripExactly`). A NaN comes back but equals nothing (`Equality.RoundTripIsEqual`).
* The failure test of `msgpack_bin_to_lua` takes the decoder's error code for success, and an object is used that was
  never written: for received bytes exactly when there are some and the grammar rejects them (`LuaUnpack.BinToLua`,
  `LuaUnpack.ReservedByteIsRead`), and for sent messages exactly when they nest deeper than 32
  (`LuaBridge.TooDeepIsRejected`, `LuaBridge.Transfer`).

`dafny verify dfyconfig.toml` checks everything.

## Model

| member | source | states |
|---|---|---|
| Machine.Context.Execute | modules/core/src/msgpack/msgpack copy/unpack_template.h:97-396 | From any state and input, whatever bytes follow: on 1 the reference grammar yields the returned object and leaves exactly the bytes behind the new offset; on 0 decoding from the saved state and offset has the outcome that decoding before the call had, the grammar cannot decide yet, and the offset is the end of the input or stands before an incomplete trail; on -1 the grammar rejects every continuation, and running on from the saved state never finds an object. The loop ends. Raws of the result point to bytes read by this call. |
| Machine.Unpack | modules/core/src/msgpack/msgpack copy/src/unpack.c:393-429 | Return code (2, 1, 0 or -1), object and offset of one-shot decoding are those of the grammar at nesting room 32: success, extra bytes, more input needed, parse error. The offset is kept on a parse error, and without a complete object none is written. |
| Machine.Context.Init | modules/core/src/msgpack/msgpack copy/unpack_template.h:70-93 | The state of a fresh machine, and no bytes pending. |
| Machine.Context.StartContainer | modules/core/src/msgpack/msgpack copy/unpack_template.h:141-168 | An opened container, an empty one and one opened on a full stack each continue as the grammar does after the same header. |
| Machine.Context.ReadHeader | modules/core/src/msgpack/msgpack copy/unpack_template.h:188-246 | Every header byte leads to the label after which the machine means what the grammar means. |
| Machine.Context.ReadTrail | modules/core/src/msgpack/msgpack copy/unpack_template.h:253-331 | A complete length or value field does, too. |
| Machine.Context.PushValue | modules/core/src/msgpack/msgpack copy/unpack_template.h:334-364 | A complete item is put into the innermost container, which may complete containers all the way down; the outcome of the whole object stays the same. |
| Machine.Context.Round | modules/core/src/msgpack/msgpack copy/unpack_template.h:185-371 | One round of the loop keeps the outcome of the whole object and consumes input. |
| Machine.ExecuteInPieces | modules/core/src/msgpack/msgpack copy/unpack_template.h:366-395 | However the input is cut into pieces that arrive one after the other, running on from each saved state and offset gives the return code, object and offset of one run over all of it; when the input ends first, the saved state resumes that run with all consumed but an incomplete trail. |
| Machine.ExecuteAtOnce | modules/core/src/msgpack/msgpack copy/unpack_template.h:97-396 | A run over all of the input has the code, object and rest that the meaning of its state says. |
| Machine.StuckIsHopeless | modules/core/src/msgpack/msgpack copy/unpack_template.h:236-246 | At a reserved byte, or at a container header on a full stack, no continuation completes the object. |
| Machine.WaitingForMore | modules/core/src/msgpack/msgpack copy/unpack_template.h:254-254 | With fewer bytes than the trail, or none at a header, the grammar is undecided. |
| Machine.FullStackFails | modules/core/src/msgpack/msgpack copy/unpack_template.h:142-142 | A container opened inside 32 others is rejected, empty or not. |
| Machine.PushMore | modules/core/src/msgpack/msgpack copy/unpack_template.h:337-351 | Taking an item into a container that needs more goes on with the grammar's next item. |
| Machine.PushLast | modules/core/src/msgpack/msgpack copy/unpack_template.h:340-345 | Taking the last item completes the container one level down. |
| Machine.OpenFrame | modules/core/src/msgpack/msgpack copy/unpack_template.h:137-168 | Pushing a frame is entering the grammar's container rule. |
| Machine.FreshMeaning | modules/core/src/msgpack/msgpack copy/unpack_template.h:97-107 | The meaning of a fresh machine is the grammar. |
| Format.FieldDecodes | modules/core/src/msgpack/msgpack copy/unpack_template.h:200-233 | Each field header reads its big-endian field of the right width and then the value, string or container it announces. |
| Format.DecodeExtend | modules/core/src/msgpack/msgpack copy/unpack_template.h:185-187 | A decision of the grammar does not depend on the bytes behind what it consumed. |
| Format.ProperPrefixNeedsMore | modules/core/src/msgpack/msgpack copy/unpack_template.h:254-254 | Every proper prefix of a complete encoding asks for more. |
| Format.RestIsSuffix | modules/core/src/msgpack/msgpack copy/unpack_template.h:373-393 | What is left is a proper suffix of the input. |
| Bytes.Store | modules/core/src/msgpack/msgpack copy/sysdep.h:177-182 | Stored fields have the given width and load back to the stored number. |
| Bytes.StoreLoad | modules/core/src/msgpack/msgpack copy/sysdep.h:129-147 | Loading and storing gives the same bytes back. |
| Bytes.LoadConcat | modules/core/src/msgpack/msgpack copy/sysdep.h:129-147 | The bytes in front of a field count 256 to the power of the number of bytes behind them: the most significant byte comes first. |
| WireFormat.HeaderByte | modules/core/src/msgpack/msgpack copy/unpack_template.h:188-246 | What every header byte without a field means, for any bytes behind it. |
| WireFormat.OneByteField | modules/core/src/msgpack/msgpack copy/unpack_template.h:276-300 | 0xcc and 0xd0: the byte, or its reading in two's complement. |
| WireFormat.TwoByteField | modules/core/src/msgpack/msgpack copy/unpack_template.h:274-331 | 0xcd, 0xd1, 0xda, 0xdc, 0xde followed by a and b read 256 a + b, as value, in two's complement, as length and as count. |
| WireFormat.FourByteField | modules/core/src/msgpack/msgpack copy/unpack_template.h:259-300 | 0xca, 0xce and 0xd2 with their four bytes, the most significant one first. |
| WireFormat.FourByteLength | modules/core/src/msgpack/msgpack copy/unpack_template.h:300-331 | 0xdb, 0xdd and 0xdf with their four bytes. |
| WireFormat.EightByteField | modules/core/src/msgpack/msgpack copy/unpack_template.h:264-300 | 0xcb, 0xcf and 0xd3 with their eight bytes. |
| WireFormat.KeyComesFirst | modules/core/src/msgpack/msgpack copy/unpack_template.h:337-364 | The two objects in a map of one pair are its key and then its value. |
| WireFormat.ItemsInOrder | modules/core/src/msgpack/msgpack copy/unpack_template.h:337-345 | The items of an array stand in their order. |
| Doubles.AmountIsProduct | modules/core/src/msgpack/msgpack copy/unpack_template.h:259-269 | The value of a pattern is its significand times a power of two. |
| Doubles.WidenKeepsValue | modules/core/src/msgpack/msgpack copy/unpack_template.h:259-263 | The double that a float becomes has the float's value and sign; infinities and NaNs stay infinities and NaNs. |
| Bytes.Unsigned | modules/core/src/msgpack/msgpack copy/src/unpack.c:73-87 | The unsigned pattern of a signed value reads back as that value. |
| Packing.Packer.PackUint8 | modules/core/src/msgpack/msgpack copy/pack_template.h:48-58 | Appends the integer's encoding, the same as every wider entry point for that value. |
| Packing.Packer.PackUint16 | modules/core/src/msgpack/msgpack copy/pack_template.h:60-75 | The same for 16 bits. |
| Packing.Packer.PackUint32 | modules/core/src/msgpack/msgpack copy/pack_template.h:77-101 | The same for 32 bits. |
| Packing.Packer.PackUint64 | modules/core/src/msgpack/msgpack copy/pack_template.h:103-132 | The same for 64 bits. |
| Packing.Packer.PackInt8 | modules/core/src/msgpack/msgpack copy/pack_template.h:134-144 | The same for signed 8 bits. |
| Packing.Packer.PackInt16 | modules/core/src/msgpack/msgpack copy/pack_template.h:146-174 | The same for signed 16 bits. |
| Packing.Packer.PackInt32 | modules/core/src/msgpack/msgpack copy/pack_template.h:176-214 | The same for signed 32 bits. |
| Packing.Packer.PackInt64 | modules/core/src/msgpack/msgpack copy/pack_template.h:216-272 | The same for signed 64 bits. |
| WireFormat.PositiveBytes | modules/core/src/msgpack/msgpack copy/pack_template.h:103-132 | The bytes of every non-negative integer, one by one. |
| WireFormat.NegativeBytes | modules/core/src/msgpack/msgpack copy/pack_template.h:216-272 | The bytes of every negative integer: two's complement in the shortest width, the most significant byte first. |
| WireFormat.StoreEight | modules/core/src/msgpack/msgpack copy/pack_template.h:644-657 | The eight bytes of a pattern, one by one. |
| WireFormat.LengthBytes | modules/core/src/msgpack/msgpack copy/pack_template.h:691-747 | The bytes of every header with a length: the header byte alone, or two or four bytes behind it. |
| Packing.Packer.PackDouble | modules/core/src/msgpack/msgpack copy/pack_template.h:644-657 | Appends the tag and the big-endian pattern. |
| Packing.Packer.PackArray | modules/core/src/msgpack/msgpack copy/pack_template.h:691-710 | Appends the header for the number of items. |
| Packing.Packer.PackMap | modules/core/src/msgpack/msgpack copy/pack_template.h:712-731 | Appends the header for the number of pairs. |
| Packing.Packer.PackRaw | modules/core/src/msgpack/msgpack copy/pack_template.h:733-747 | Appends the header for the length; a length of 2^32 or more is cut to 32 bits. |
| Packing.Packer.PackObject | modules/core/src/msgpack/msgpack copy/src/objectc.c:35-99 | Appends exactly the encoding of the object, by recursion and loops over the children. |
| Packing.IntegerRoundTrip | modules/core/src/msgpack/msgpack copy/pack_template.h:48-272 | Every integer from -2^63 to 2^64-1 decodes back to itself, tagged by its sign. |
| Packing.RawRoundTrip | modules/core/src/msgpack/msgpack copy/pack_template.h:733-752 | Every string below 2^32 bytes comes back. |
| Packing.ContainerHeaderDecodes | modules/core/src/msgpack/msgpack copy/pack_template.h:691-731 | Every container header opens a container of that many items. |
| Packing.RoundTrip | modules/core/src/msgpack/msgpack copy/src/objectc.c:35-99 | Decoding the encoding of any object gives the object with integers tagged by sign and leaves what follows, or fails when it nests deeper than the room. |
| Compaction.RoundTripExactly | modules/core/src/msgpack/msgpack copy/src/objectc.c:35-99 | It gives the very same object if and only if no integer tagged negative is non-negative and the depth fits. |
| Compaction.EncodingsArePrefixFree | modules/core/src/msgpack/msgpack copy/src/objectc.c:35-99 | Every proper prefix of an encoding within the depth asks for more. |
| Compaction.RepackingKeepsTheObject | modules/core/src/msgpack/msgpack copy/cases_gen.rb:70-94 | Decoding any valid bytes, minimal or not, packing the result and decoding again gives the same object. |
| Compaction.Compacts | modules/core/src/msgpack/msgpack copy/cases_gen.rb:70-94 | The repacked form is at most 4 bytes per 32-bit float longer than the bytes consumed; without such floats it is never longer. |
| Compaction.FloatsAreRead | modules/core/src/msgpack/msgpack copy/cases_gen.rb:70-94 | Each of those floats takes five of the bytes consumed, with 0xca among them; without that byte there are none. |
| Compaction.IntegerPackingIsOptimal | modules/core/src/msgpack/msgpack copy/pack_template.h:48-272 | No valid encoding of an integer is shorter than the one chosen. |
| Equality.ObjectEqual | modules/core/src/msgpack/msgpack copy/src/objectc.c:171-236 | Decides equality of objects, walking both lists of children in step. |
| Equality.SameIsZeroed | modules/core/src/msgpack/msgpack copy/src/objectc.c:171-236 | Two objects are equal if and only if they are the same but for the sign of zeros, and hold no NaN. |
| Equality.DoubleEqualsIsValue | modules/core/src/msgpack/msgpack copy/src/objectc.c:188-189 | Doubles are equal if and only if none is a NaN and they have the same real value, or are the same infinity. |
| Equality.SameWithoutDoubles | modules/core/src/msgpack/msgpack copy/src/objectc.c:171-236 | Objects without doubles are equal if and only if they are the same. |
| Equality.SameIsReflexive | modules/core/src/msgpack/msgpack copy/src/objectc.c:171-236 | An object is equal to itself if and only if it holds no NaN. |
| Equality.SameIsEquivalence | modules/core/src/msgpack/msgpack copy/src/objectc.c:171-236 | Equality is symmetric and transitive. |
| Equality.SameIsSameBytes | modules/core/src/msgpack/msgpack copy/src/objectc.c:171-236 | Objects whose integers are tagged by sign are equal if and only if they hold no NaN and are packed to the same bytes, once -0.0 is written 0.0. |
| Equality.TagsMatter | modules/core/src/msgpack/msgpack copy/src/objectc.c:174-186 | The same integer under two tags is packed to the same bytes and is not equal. |
| Equality.RoundTripIsEqual | modules/core/src/msgpack/msgpack copy/src/objectc.c:35-99 | The decoded object is equal to the packed one if and only if it nests no deeper than the room, no integer is mistagged and no double is a NaN. |
| Unpacker.Unpacker.constructor | modules/core/src/msgpack/msgpack copy/src/unpack.c:177-217 | A valid unpacker with nothing fed and nothing returned. |
| Unpacker.Unpacker.ExpandBuffer | modules/core/src/msgpack/msgpack copy/src/unpack.c:248-309 | At least size bytes are free, the unparsed bytes are the same, used plus free is the capacity, counts are right and every raw of a live zone still points to its bytes, through rewinding, reallocation or replacement. |
| Unpacker.Unpacker.Rewind | modules/core/src/msgpack/msgpack copy/src/unpack.c:250-256 | Rewinding under its guard disturbs no raw of a live zone. |
| Unpacker.Unpacker.Realloc | modules/core/src/msgpack/msgpack copy/src/unpack.c:262-274 | Moving the buffer at off == COUNTER_SIZE disturbs no raw of a live zone. |
| Unpacker.Unpacker.Replace | modules/core/src/msgpack/msgpack copy/src/unpack.c:276-305 | The old buffer's share goes to the zone or is given up; the new buffer holds the unparsed bytes. |
| Unpacker.Unpacker.ReserveBuffer | modules/core/src/msgpack/msgpack copy/src/msgpack/unpack.h:197-201 | At least size bytes are free, and the stream of objects to come is the same. |
| Unpacker.Unpacker.Feed | modules/core/src/msgpack/msgpack copy/src/msgpack/unpack.h:203-217 | The unparsed bytes and the fed stream grow by the bytes copied in. |
| Unpacker.Unpacker.ExecuteBuffer | modules/core/src/msgpack/msgpack copy/src/unpack.c:311-320 | A decoding step of the buffer has the decoder's outcome, and the new raws point into the current buffer below the offset. |
| Unpacker.Unpacker.FlushZone | modules/core/src/msgpack/msgpack copy/src/unpack.c:350-362 | The zone takes a share of a buffer that its objects point into. |
| Unpacker.Unpacker.ReleaseZone | modules/core/src/msgpack/msgpack copy/src/unpack.c:327-343 | The zone of the finished object is handed out with its share, and a new zone takes its place. |
| Unpacker.Unpacker.FreeZone | modules/core/src/msgpack/msgpack copy/src/unpack.c:373-375 | Freeing a zone runs its finalizers and leaves the raws of all other zones readable. |
| Unpacker.Unpacker.Next | modules/core/src/msgpack/msgpack copy/src/unpack.c:371-390 | Objects come out exactly as the grammar finds them in all bytes fed so far, in order; false means that the stream so far has no further one, by its end or a parse error, and after a parse error nothing comes out any more. The object's raws are readable as long as its zone lives. |
| Unpacker.Unpacker.Destroy | modules/core/src/msgpack/msgpack copy/src/unpack.c:219-224 | Afterwards exactly the buffers that zones outside still hold are allocated, with right counts and readable raws. |
| Unpacker.NothingLeaks | modules/core/src/msgpack/msgpack copy/src/unpack.c:156-162 | When those zones are gone as well, no buffer is allocated. |
| Unpacker.WriteIsSafe | modules/core/src/msgpack/msgpack copy/src/unpack.c:201-206 | Bytes behind the read offset may be overwritten: no raw of a live zone is there. |
| Unpacker.RewindIsSafe | modules/core/src/msgpack/msgpack copy/src/unpack.c:250-256 | Count 1 and not referenced imply that no live raw points into the buffer. |
| Unpacker.MoveIsSafe | modules/core/src/msgpack/msgpack copy/src/unpack.c:262-274 | At off == COUNTER_SIZE nobody else points into the buffer. |
| Unpacker.HandOverIsSafe | modules/core/src/msgpack/msgpack copy/src/unpack.c:292-305 | Passing the share to a finalizer keeps the counts right. |
| Unpacker.AbandonIsSafe | modules/core/src/msgpack/msgpack copy/src/unpack.c:298-305 | Giving the share up frees the buffer only if no zone holds it. |
| Unpacker.FlushIsSafe | modules/core/src/msgpack/msgpack copy/src/unpack.c:350-362 | One more finalizer and one more share keep the counts right. |
| Unpacker.FinalizeIsSafe | modules/core/src/msgpack/msgpack copy/src/unpack.c:156-162 | Running a finalizer finds its buffer allocated with a positive count, and keeps the counts right. |
| StreamReader.ReadStream | modules/core/src/msgpack/msgpack copy/src/msgpack/unpack.h:96-131 | However a stream is cut into pieces, exactly its objects come out, in order: all of them, or with a parse error all those before it. |
| StreamReader.ReadChunk | modules/core/src/msgpack/msgpack copy/src/unpack.c:371-390 | After each piece exactly the objects complete so far are out, and none from behind a parse error. |
| Unpacker.BrokenStays | modules/core/src/msgpack/msgpack copy/src/unpack.c:379-383 | Once a stream has a parse error, nothing that follows changes its objects. |
| DasmListing.Assemble | modules/lk/src/lua/vendor_jit/dynasm/dasm_arm.h:177-422 | Any well-formed calls of dasm_put over any sections, then dasm_link and dasm_encode, emit exactly the code of the listing of the calls and enter the globals at their addresses; the phase error never happens. In that code every patch lands: a reference leads the processor to the address of the definition that it is meant to reach if and only if the instruction can express the displacement, and then nothing else in the instruction changes. |
| DasmListing.ListingLands | modules/lk/src/lua/vendor_jit/dynasm/dasm_arm.h:365-411 | The same for the listing of every recorded unit. |
| DasmLanding.CodeLands | modules/lk/src/lua/vendor_jit/dynasm/dasm_arm.h:365-411 | A patch changes the word at o - 4 alone, where o is the byte offset behind it. The processor, which reads 8 bytes ahead, gets from there to the target if and only if the displacement is in reach; an external symbol is reached, and an immediate argument is the constant used, under the same conditions. |
| DasmLanding.WordsStay | modules/lk/src/lua/vendor_jit/dynasm/dasm_arm.h:343-422 | Once more words follow, a word does not change again. |
| DasmLanding.LastPatchIsFinal | modules/lk/src/lua/vendor_jit/dynasm/dasm_arm.h:343-422 | The word stays as its last patch left it, in the finished code. |
| DasmLanding.PatchHasWord | modules/lk/src/lua/vendor_jit/dynasm/dasm_arm.h:365-411 | Every patch of a recorded unit has a word in front of it in the code. |
| DasmFields.PatchedReaches | modules/lk/src/lua/vendor_jit/dynasm/dasm_arm.h:376-390 | A displacement or-ed into an instruction with a blank field is what the processor adds, in each of the four forms, if and only if it is in reach; the other bits stay. |
| DasmFields.ConstantIsRead | modules/lk/src/lua/vendor_jit/dynasm/dasm_arm.h:395-411 | An immediate or-ed into a blank field is read back if and only if it fits: scaled and shifted fields, signed or not, rotated constants, 16-bit constants and the three kinds of offsets. |
| DasmFields.CheckedIsInReach | modules/lk/src/lua/vendor_jit/dynasm/dasm_arm.h:377-387 | For whole words the range checks hold if and only if the displacement is in reach, or is 256 or 4096 in magnitude in two of the forms. |
| DasmFields.FormFlags | modules/lk/src/lua/vendor_jit/dynasm/dasm_arm.h:377-388 | Which flag bits of an action word select which form, next to the label number. |
| DasmFields.ActionFields | modules/lk/src/lua/vendor_jit/dynasm/dasm_arm.h:396-396 | Where an action word holds shift, width, scale and sign of an immediate. |
| DasmFields.OrBit | modules/lk/src/lua/vendor_jit/dynasm/dasm_arm.h:379-411 | A bit of a patched word is set if and only if it is set in the instruction or the field. |
| DasmFields.RotatedBit | modules/lk/src/lua/vendor_jit/dynasm/dasm_arm.h:168-174 | A rotated constant has the bits of its 8-bit value, each moved by twice the rotation. |
| DasmUnit.LabelNumbers | modules/lk/src/lua/vendor_jit/dynasm/dasm_arm.h:204-233 | Label numbers below 10 refer to the next local label, from 10 on to the last one or to globals, and definitions use the same numbers from 10 on. |
| DasmUnit.LowByte | modules/lk/src/lua/vendor_jit/dynasm/dasm_arm.h:201-205 | The low byte of an action word is the alignment mask or the section number. |
| DasmUnit.ArgumentsInOrder | modules/lk/src/lua/vendor_jit/dynasm/dasm_arm.h:199-269 | The arguments of a call are taken in their order, and all of them. |
| DasmUnit.ActionsStep | modules/lk/src/lua/vendor_jit/dynasm/dasm_arm.h:193-206 | The steps of a call follow its action list; a literal word is skipped behind its escape, and a stop or section switch ends the call. |
| DasmListing.PutMatches | modules/lk/src/lua/vendor_jit/dynasm/dasm_arm.h:177-273 | Recording a call in the buffers and noting it in the listing give the same program. |
| DasmListing.CodeMatches | modules/lk/src/lua/vendor_jit/dynasm/dasm_arm.h:343-422 | The code depends on the listing alone, not on buffer positions or estimates. |
| DasmListing.SectionPosition | modules/lk/src/lua/vendor_jit/dynasm/dasm_arm.h:193-272 | A section's buffer position counts the steps that take a slot. |
| Dasm.Assembler.constructor | modules/lk/src/lua/vendor_jit/dynasm/dasm_arm.h:86-153 | Every section is empty, no label is defined or referenced, and the invariant of all three passes holds. |
| Dasm.Assembler.Put | modules/lk/src/lua/vendor_jit/dynasm/dasm_arm.h:177-273 | Pass 1 records exactly the actions up to the stop, with their arguments in order, at the end of the active section and nowhere else; a SECTION stop changes the active section; all label chains stay well formed. |
| Dasm.Assembler.Reserve | modules/lk/src/lua/vendor_jit/dynasm/dasm_arm.h:186-191 | There is room for every position of the call, and nothing stored is lost. |
| Dasm.Assembler.Collapse | modules/lk/src/lua/vendor_jit/dynasm/dasm_arm.h:236-238 | Every slot of the chain gets the label's position and no other slot changes; the walk ends. |
| Dasm.Assembler.ChainReference | modules/lk/src/lua/vendor_jit/dynasm/dasm_arm.h:212-230 | A reference gets the label's position or joins the front of its chain, as the label bookkeeping says. |
| Dasm.Assembler.DefineLabel | modules/lk/src/lua/vendor_jit/dynasm/dasm_arm.h:235-240 | A definition settles all waiting references with its position. |
| Dasm.Assembler.StoreLabel | modules/lk/src/lua/vendor_jit/dynasm/dasm_arm.h:231-241 | A label is recorded at the estimated offset, and the invariant holds. |
| Dasm.Assembler.Link | modules/lk/src/lua/vendor_jit/dynasm/dasm_arm.h:277-333 | For any unit, pass 2 leaves in every label slot the exact byte offset of its label, sets the markers of undefined globals, changes no other slot, and computes the exact size of the code. |
| Dasm.Assembler.MarkUndefined | modules/lk/src/lua/vendor_jit/dynasm/dasm_arm.h:293-300 | The loop marks every reference on the chain of a global from index 20 on with the negated index, and no other slot. |
| DasmLink.ReferenceIsMarked | modules/lk/src/lua/vendor_jit/dynasm/dasm_arm.h:293-300 | A reference is marked, with the negated index, if and only if it has no definition and names a global whose index is at least 20: the first ten globals, at indices 10 to 19, are never marked. |
| DasmLink.ReferenceIsNoMarker | modules/lk/src/lua/vendor_jit/dynasm/dasm_arm.h:212-230 | Before that loop no reference holds a negative value. |
| Dasm.Assembler.Encode | modules/lk/src/lua/vendor_jit/dynasm/dasm_arm.h:343-422 | Pass 3 emits the code of the naive assembler, which knows all addresses, and exactly codesize bytes of it, within a buffer of that size; the phase error never happens. |
| Dasm.Assembler.EncodeStep | modules/lk/src/lua/vendor_jit/dynasm/dasm_arm.h:358-414 | One action appends or patches what the naive assembler does, in step with the slots. |
| Dasm.Assembler.Pad | modules/lk/src/lua/vendor_jit/dynasm/dasm_arm.h:368-370 | No-ops up to the next multiple of the alignment, and no more. |
| Dasm.Assembler.GetPcLabel | modules/lk/src/lua/vendor_jit/dynasm/dasm_arm.h:426-435 | The byte offset at which the visible definition of the PC label is reached; without one, -1 if references wait for it and -2 if not, or if the label is out of range. |
| Labels.PendingWaits | modules/lk/src/lua/vendor_jit/dynasm/dasm_arm.h:430-433 | A label has a chain if and only if a reference to it waits for a definition. |
| Dasm.Grown | modules/lk/src/lua/vendor_jit/dynasm/dasm_arm.h:186-191 | Growth reaches the requested size and never shrinks. |
| DasmLink.AlignmentIsMet | modules/lk/src/lua/vendor_jit/dynasm/dasm_arm.h:318-318 | After an alignment action the offset is a multiple of the alignment, with less than one alignment of padding. |
| DasmLink.CorrectionStays | modules/lk/src/lua/vendor_jit/dynasm/dasm_arm.h:309-324 | Estimate plus running correction is the exact offset, after every action. |
| DasmLink.DefinitionLinked | modules/lk/src/lua/vendor_jit/dynasm/dasm_arm.h:320-320 | The slot of a label holds the byte offset at which its definition is reached. |
| DasmLink.ReferenceLinked | modules/lk/src/lua/vendor_jit/dynasm/dasm_arm.h:371-375 | The slot of a reference holds the position of the definition that it is meant to reach. |
| DasmLink.NothingPending | modules/lk/src/lua/vendor_jit/dynasm/dasm_arm.h:293-300 | When every reference has a definition, no chain is left. |
| DasmLink.WalkEnds | modules/lk/src/lua/vendor_jit/dynasm/dasm_arm.h:309-309 | The walk over a section ends exactly when its last position is reached. |
| DasmLink.WalkOn | modules/lk/src/lua/vendor_jit/dynasm/dasm_arm.h:310-326 | Each step of a walk finds the next recorded action, with slots and estimate where this one ends. |
| DasmLink.OffGrows | modules/lk/src/lua/vendor_jit/dynasm/dasm_arm.h:303-328 | Offsets never shrink along the unit. |
| DasmCode.CodeLength | modules/lk/src/lua/vendor_jit/dynasm/dasm_arm.h:343-422 | The exact offsets count the bytes of the naive assembler's code. |
| DasmCode.WordToPatch | modules/lk/src/lua/vendor_jit/dynasm/dasm_arm.h:377-411 | A patch always has a word in front of it. |
| DasmCode.ReferenceReaches | modules/lk/src/lua/vendor_jit/dynasm/dasm_arm.h:371-375 | Following the slot of a reference leads to the address of its meant definition. |
| DasmCode.FieldFromSlots | modules/lk/src/lua/vendor_jit/dynasm/dasm_arm.h:365-411 | The field patched from the slots is the one computed from addresses and arguments. |
| DasmCode.GlobalIsItsAddress | modules/lk/src/lua/vendor_jit/dynasm/dasm_arm.h:392-394 | A global label with one definition is entered with the byte offset of that definition. |
| Labels.RunSettles | modules/lk/src/lua/vendor_jit/dynasm/dasm_arm.h:212-240 | Every reference is settled with the definition that it is meant to reach, or waits because there is none yet. |
| Labels.ResolveIsNearest | modules/lk/src/lua/vendor_jit/dynasm/dasm_arm.h:204-240 | The meant definition is the last one before the reference with no forward reference in between; else, and for forward references, the first one behind it. |
| Labels.DefinedIsVisible | modules/lk/src/lua/vendor_jit/dynasm/dasm_arm.h:221-228 | A label counts as existing exactly when its latest definition was not followed by a forward reference. |
| Labels.SingleDefinitionIsReached | modules/lk/src/lua/vendor_jit/dynasm/dasm_arm.h:218-240 | A label with a single definition and no forward references, such as a PC label, is reached by all its references, before and after. |
| Labels.PendingIsDistinct | modules/lk/src/lua/vendor_jit/dynasm/dasm_arm.h:225-228 | No position is on a chain twice, so chains have no cycle. |
| Labels.PendingIsDisjoint | modules/lk/src/lua/vendor_jit/dynasm/dasm_arm.h:225-228 | No position is on two chains. |
| Labels.PendingIsUnsettled | modules/lk/src/lua/vendor_jit/dynasm/dasm_arm.h:221-230 | A settled reference is on no chain. |
| LabelChains.LinkKeepsLabels | modules/lk/src/lua/vendor_jit/dynasm/dasm_arm.h:225-228 | Linking a slot at the front keeps all chains, heads and targets right. |
| LabelChains.ReferKeepsLabels | modules/lk/src/lua/vendor_jit/dynasm/dasm_arm.h:222-223 | So does storing the position of a label that exists. |
| LabelChains.DefineKeepsLabels | modules/lk/src/lua/vendor_jit/dynasm/dasm_arm.h:235-240 | So does collapsing the label's chain. |
| LabelChains.OtherSlotKeepsLabels | modules/lk/src/lua/vendor_jit/dynasm/dasm_arm.h:211-211 | So does any other store. |
| DasmUnit.AppendKeepsUnit | modules/lk/src/lua/vendor_jit/dynasm/dasm_arm.h:193-272 | Recording one more action keeps slots, ranges and events of all sections consistent. |
| DasmActions.ComputeImm12 | modules/lk/src/lua/vendor_jit/dynasm/dasm_arm.h:168-174 | A field comes back exactly when some rotated 8-bit value is the constant; it denotes the constant, with the smallest rotation. |
| DasmActions.RotatedUnrotated | modules/lk/src/lua/vendor_jit/dynasm/dasm_arm.h:168-174 | Rotating left and then right gives the constant back. |
| DasmActions.BranchFieldReaches | modules/lk/src/lua/vendor_jit/dynasm/dasm_arm.h:377-379 | The branch field reads back as the displacement if and only if the range check holds. |
| DasmActions.SplitOffsetReaches | modules/lk/src/lua/vendor_jit/dynasm/dasm_arm.h:405-408 | The split offset reads back if and only if the magnitude is below 256. |
| DasmActions.SplitRangeCheckIsTooWide | modules/lk/src/lua/vendor_jit/dynasm/dasm_arm.h:380-382 | The check admits 256 and -256, which are both encoded as 0. |
| DasmActions.OffsetReaches | modules/lk/src/lua/vendor_jit/dynasm/dasm_arm.h:383-386 | The 12-bit offset reads back if and only if the magnitude is below 4096. |
| DasmActions.OffsetRangeCheckIsTooWide | modules/lk/src/lua/vendor_jit/dynasm/dasm_arm.h:383-386 | The check admits 4096 and -4096, whose encodings set bit 12, outside the field. |
| Rounding.DoubleIsExact | modules/core/src/msgpack/msgpack.cpp:137-143 | Integers from -2^53 to 2^53 are pushed as the double of that value. |
| Rounding.DoubleIsNearest | modules/core/src/msgpack/msgpack.cpp:137-143 | Every other integer from -2^64 to 2^64 becomes the double nearest to it, and of two that are as near the even one. |
| LuaUnpack.NumberIsPushed | modules/core/src/msgpack/msgpack.cpp:137-147 | So Lua gets the number itself for integers up to 2^53 in magnitude, the nearest double for others, and doubles as they are. |
| Rounding.OneAsDouble | modules/core/src/msgpack/msgpack.cpp:137-139 | The number 1 is pushed as its pattern. |
| LuaPack.PackLua | modules/core/src/msgpack/msgpack.cpp:91-124 | Appends the encoding of the object that the value unrolls to and leaves the stack as it was, or throws with the stack at least as high; it ends on every graph of tables. |
| LuaPack.PackTable | modules/core/src/msgpack/msgpack.cpp:77-89 | The same for tables, which are refused above MAX_DEPTH. |
| LuaPack.PackArray | modules/core/src/msgpack/msgpack.cpp:52-61 | The same for the items of an array, in order. |
| LuaPack.PackHash | modules/core/src/msgpack/msgpack.cpp:63-75 | The same for the fields of a hash, in the order of lua_next; the count in the header is the number of pairs sent. |
| LuaPack.CountFields | modules/core/src/msgpack/msgpack.cpp:66-66 | The first traversal counts every field and restores the stack. |
| LuaPack.CyclesAreRefused | modules/core/src/msgpack/msgpack.cpp:77-81 | No table on a cycle, or leading to one, is ever sent. |
| LuaPack.SentExactly | modules/core/src/msgpack/msgpack.cpp:77-124 | A value is refused if and only if it leads, through items, keys and values, to a function or the like, or to a table that stands above MAX_DEPTH on the stack. |
| LuaPack.NestedIsSent | modules/core/src/msgpack/msgpack.cpp:52-81 | A value that nests within d tables is sent whenever the stack is at most MAX_DEPTH - 2 d high. |
| LuaPack.NestedArgsAreSent | modules/core/src/msgpack/msgpack.cpp:193-225 | The same for all arguments of a message. |
| LuaPack.ValueBytes | modules/core/src/msgpack/msgpack.cpp:91-112 | The bytes of nil, booleans, numbers and strings. |
| LuaPack.PacksWellFormed | modules/core/src/msgpack/msgpack.cpp:91-124 | What is sent is within the limits of the format. |
| LuaPack.LuaToBin | modules/core/src/msgpack/msgpack.cpp:193-225 | The message for the arguments, or an exception when one cannot be sent; the stack is the same afterwards in either case. |
| LuaUnpack.UnpackObject | modules/core/src/msgpack/msgpack.cpp:126-191 | An error is raised if and only if some map key is nil or NaN. Otherwise as many values are pushed as the object stands for, and they show it, or its items as an argument list, when its maps and arrays can be loaded without loss; tables that existed are untouched. |
| LuaUnpack.UnpackArray | modules/core/src/msgpack/msgpack.cpp:163-171 | One new table is pushed, unless an item raises an error; it shows the array when no item is nil. |
| LuaUnpack.UnpackMap | modules/core/src/msgpack/msgpack.cpp:173-186 | One new table is pushed, unless a key is nil or NaN, and then an error is raised; it shows the map when its keys are proper and differ. |
| LuaUnpack.KeyIsNew | modules/core/src/msgpack/msgpack.cpp:180-184 | A key of the map replaces no earlier field. |
| LuaUnpack.BinToLua | modules/core/src/msgpack/msgpack.cpp:227-258 | For any bytes: a complete message is pushed as argument list or raises an error, an incomplete one is refused, and an object that was never written is used if and only if there are bytes that the grammar rejects. |
| LuaUnpack.ReservedByteIsRead | modules/core/src/msgpack/msgpack.cpp:237-240 | The byte 0xc1 alone is such an input. |
| LuaBridge.PackedIsFaithful | modules/core/src/msgpack/msgpack.cpp:91-124 | The object sent for a value shows the value, survives packing, and can be loaded by Lua. |
| LuaBridge.WhatComesBack | modules/core/src/msgpack/msgpack.cpp:204-215 | A list of arguments comes back as itself if and only if it has several, or one that is no array with items. |
| LuaBridge.TooDeepIsRejected | modules/core/src/msgpack/msgpack.cpp:237-240 | For a message that was sent, the receiver reads an object never written if and only if it nests deeper than 32, which the sender can check. |
| LuaBridge.Transfer | modules/core/src/msgpack/msgpack.cpp:193-258 | Sending and receiving pushes values that show what was sent, and nothing else, unless the message nests deeper than 32; exactly then the object read was never written. The sender's stack is the same. |
| Poller.Poller.constructor | modules/zmq/src/core/poller.cpp:35-74 | An empty table with the requested number of free places, or 10. |
| Poller.Poller.AddItem | modules/zmq/include/zmq/Poller.h:280-322 | The lowest free handle is bound to the new item at the end, the arrays double only when full, and both index arrays stay inverse. The new handle would be reported at once if and only if its slot had events left over and fewer items have events than the poll counted; then events has not been called since the poll, and a ready item was removed. |
| Poller.Poller.Grow | modules/zmq/include/zmq/Poller.h:282-305 | The first half is kept and exactly the new half is free. |
| Poller.Poller.FreeHandle | modules/zmq/include/zmq/Poller.h:314-317 | The scan finds a free handle inside the array, the lowest. |
| Poller.Poller.Modify | modules/zmq/include/zmq/Poller.h:191-209 | For any handle in range: the place written is inside the array if and only if the handle is live. Then the item of that handle, and no other, gets the new events and keeps its revents; a new descriptor clears the socket, a new socket clears the descriptor, and without either both stay. |
| Poller.ModifyAfterRemove | modules/zmq/include/zmq/Poller.h:191-237 | A handle that is changed after its removal: the place is outside. |
| Poller.Poller.Remove | modules/zmq/include/zmq/Poller.h:213-237 | Exactly a handle out of range or not live is refused, without effect; otherwise the last item takes its place. |
| Poller.Poller.Poll | modules/zmq/include/zmq/Poller.h:108-158 | Returns, reports an interruption or fails as zmq_poll and the signal say. After a poll the used items have their events, and the count is the number of items that have some; after an interruption nothing is polled any more. |
| Poller.Poller.Events | modules/zmq/include/zmq/Poller.h:163-179 | The handles with events in polling order, as many as were counted, which uses up the count. If no handle was removed since the poll, exactly the handles that the poll found ready. |
| Poller.Poller.IdxToPos | modules/zmq/include/zmq/Poller.h:246-250 | The position of a handle, -1 if it is free. |
| PollTable.RunRefinesMap | modules/zmq/include/zmq/Poller.h:146-237 | Every run of adds, changes, removals and polls is a run of a finite map from handles to items. |
| Poller.TableIsMap | modules/zmq/include/zmq/Poller.h:146-237 | The arrays of a poller always show the map that its calls so far lead to. |
| PollTable.ReportedAt | modules/zmq/include/zmq/Poller.h:163-179 | An item is reported if and only if it has events and fewer items in front of it have some than were counted. |
| PollTable.PolledIsReported | modules/zmq/include/zmq/Poller.h:163-179 | A table that still starts with the polled items reports exactly the handles that the poll found ready. |
| PollTable.RemoveView | modules/zmq/include/zmq/Poller.h:213-237 | Removing one handle changes no other, although an item moves. |
| PollTable.AddView | modules/zmq/include/zmq/Poller.h:280-322 | Adding changes no other handle. |
| PollTable.UpdateView | modules/zmq/include/zmq/Poller.h:191-209 | Changing an item changes no other handle. |
| PollTable.FreeHandleExists | modules/zmq/include/zmq/Poller.h:314-317 | By pigeonhole, a handle is free while fewer are used than there are. |
| PollTable.ReadyIsComplete | modules/zmq/include/zmq/Poller.h:163-179 | Exactly the handles of items with events are reported, each once. |
| PollTable.ReadyInOrder | modules/zmq/include/zmq/Poller.h:163-179 | Handles are reported in the order of their items. |
| PollTable.AddedIsReported | modules/zmq/include/zmq/Poller.h:308-311 | A handle that has just been added would be reported if and only if its slot had events left over and fewer items have events than the poll counted. |
| PollTable.MovedEventsAreReported | modules/zmq/include/zmq/Poller.h:213-237 | An input for which a new handle is reported although no ready item was removed: a later removal moves it in front of the ready one. |
| PollTable.StaleEventsAreReported | modules/zmq/include/zmq/Poller.h:308-311 | An input for which that happens. |
| Fifo.Fifo.Push | modules/core/include/lk/Fifo.h:148-162 | The message is queued at the end unless 1023 are queued; then it is deleted. |
| Fifo.Fifo.Pop | modules/core/include/lk/Fifo.h:115-131 | The oldest message is handed over and deleted. |
| Fifo.Fifo.HasMessage | modules/core/include/lk/Fifo.h:135-137 | Whether the queue is not empty. |
| Fifo.Fifo.Destroy | modules/core/include/lk/Fifo.h:89-100 | Every queued message is deleted once, oldest first, and the pipe is emptied. |
| Fifo.FullOrEmpty | modules/core/include/lk/Fifo.h:150-151 | The index tests hold exactly when the queue is full, or empty. |
| Fifo.MoveRead | modules/core/include/lk/Fifo.h:122-124 | Moving the read index takes off the oldest message. |
| Fifo.MoveWrite | modules/core/include/lk/Fifo.h:152-153 | Moving the write index queues the stored message. |
| FifoThreads.RunIsFifo | modules/core/include/lk/Fifo.h:115-162 | Under any interleaving of single steps the calls take effect, each at one of its steps, in an order that a first-in first-out queue of 1023 messages allows; the ring holds that queue. |
| FifoThreads.PoppedIsPrefix | modules/core/include/lk/Fifo.h:115-162 | What was popped is a prefix of what was accepted, and the rest is queued. |
| FifoThreads.PipeCountsMessages | modules/core/include/lk/Fifo.h:115-162 | Whenever the mutex is free, the pipe holds one byte per queued message. |
| FifoThreads.PipeIsNeverEmptyWhenRead | modules/core/include/lk/Fifo.h:125-126 | A read of the pipe always finds a byte. |
| FifoThreads.MutualExclusion | modules/core/include/lk/Fifo.h:115-149 | At most one thread is inside. |
| FifoThreads.DeletedOnce | modules/core/include/lk/Fifo.h:126-160 | No message is deleted twice, and none that is queued is deleted. |
| FifoThreads.AllAccountedFor | modules/core/include/lk/Fifo.h:89-100 | With all threads idle, every message pushed was deleted or is queued for the destructor. |
| FifoThreads.MoveKeepsInv | modules/core/include/lk/Fifo.h:115-162 | Every step of every thread keeps the invariant, and takes effect only as the queue allows. |
| SocketReader.Socket.RecvLine | modules/lk/src/more/socket.cpp:423-455 | Whatever pieces recv delivers: the bytes up to the first LF without any CR, and the exact remainder stays; nothing if the connection closes first. |
| SocketReader.Socket.RecvBytes | modules/lk/src/more/socket.cpp:457-497 | Whatever pieces recv delivers: the next n bytes, and the exact remainder stays. |
| SocketReader.Socket.Serve | modules/lk/src/more/socket.cpp:423-497 | For any mix of requests the replies depend on the stream alone. |
| SocketReader.LineRoundTrip | modules/lk/src/more/socket.cpp:423-455 | A line written with LF or CR LF comes back as written. |
| SocketReader.LineIsFirst | modules/lk/src/more/socket.cpp:423-455 | A line yields exactly the bytes in front of the first line feed, in order, without their carriage returns, and what is left follows the line feed; there is none if and only if the stream has no line feed. |
| SocketReader.CountIsConserved | modules/lk/src/more/socket.cpp:457-497 | A count yields that many bytes if and only if the stream has them, and they and what is left are the stream. |
| SocketReader.CountsAddUp | modules/lk/src/more/socket.cpp:457-497 | A count reads the same as the counts it is split into. |
| VrefBuffer.Buffer.constructor | modules/core/src/msgpack/msgpack copy/src/vrefbuffer.c:27-61 | Nothing is appended, and the first chunk is free. |
| VrefBuffer.Buffer.AppendRef | modules/core/src/msgpack/msgpack copy/src/vrefbuffer.c:97-120 | The contents grow by the referenced bytes, through doubling of the array. |
| VrefBuffer.Buffer.AppendCopy | modules/core/src/msgpack/msgpack copy/src/vrefbuffer.c:122-157 | The contents grow by the copied bytes, through new chunks and coalescing; only free bytes are written. |
| VrefBuffer.Buffer.Write | modules/core/src/msgpack/msgpack copy/src/msgpack/vrefbuffer.h:115-124 | The contents grow by the written bytes. Data shorter than ref_size are copied, so that nothing of the caller's range is referenced; longer ones are referenced where they are, and no byte is copied. |
| VrefBuffer.ClearIsIndependent | modules/core/src/msgpack/msgpack copy/src/vrefbuffer.c:145-148 | What is not referenced may change afterwards, and the contents stay. |
| VrefBuffer.GatheredStays | modules/core/src/msgpack/msgpack copy/src/vrefbuffer.c:145-148 | Copies never overwrite bytes that are referenced. |
| VrefBuffer.GatheredExtended | modules/core/src/msgpack/msgpack copy/src/vrefbuffer.c:150-153 | Making the last range longer appends the bytes behind it. |

## Left out

- Machine.Context: the zone arrays that hold the items of a container are sequences inside the object, not memory; the array written through the container's pointer is the value of its frame.
- LuaUnpack.BinToLua: what the code does with an object that was never written is not described; the outcome only says when that happens.
- LuaUnpack.UnpackObject: when no error is raised, what tables hold for keys that are 1 or repeated, and for nil items, is stated only up to old tables, stack and count.
- LuaBridge.Transfer: tables are hole-free arrays without fields, or hashes without items; of a table with both, pack_table sends only the items.
- Poller.Poller.Modify: the write in front of the array is not carried out; the outcome only says when that happens.
- Dasm.Assembler.Encode: requires that every reference has a definition in the unit; action words are below 2^32; arguments and offsets are unbounded integers, not C ints.
- DasmLanding.CodeLands: speaks of instruction words that have zeros where the field goes; of words with several patches, it says what each patch does, and not that their fields are apart.
- Dasm.Assembler.Put: requires a well-formed action list, patches after a word, masks 2^k - 1, at most 25 positions in one call, and a section below 2^24 positions.
- SocketReader.Socket.RecvBytes: a negative count and failures of recv are excluded.
- Fifo.Fifo.HasMessage: called between other calls; its two reads are not ordered with steps of other threads.
- Format: a 32-bit float widens to the double of the same value; the quiet bit that hardware may set in a NaN is not modelled.
- Allocation failure and size_t overflow: sizes are natural numbers and allocation succeeds.
- The checks compiled in by DASM_CHECKS, dasm_checkstep, dasm_free, and growth of the label tables after setup.
- dasm_mips.h: the same three passes with a different bias and other patch fields.
- The entry points for fixed-width integers and C integer types in pack_template.h, which dispatch to the ones modelled.
- msgpack_unpacker_reset_zone, msgpack_zone_clear, msgpack_vrefbuffer_migrate and object printing.
- recvAll, sends, timeouts, UDP and the rest of lk::Socket; real pipes, signals and poll timing.
- The generated bindings, dub, mdns and the graphical modules.
