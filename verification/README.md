# Verified model of the Warp engine's data core

The project models four parts of the repository and proves what they promise.

* **Image encoders** (`Source/Image/stb_image_write.h`). The zlib compressor with its bit packer, hash-bucket match
  search, lazy matching, stored-block fallback and checksum; the PNG row filters and the image data built from them; the
  run-length packets of TGA and HDR images and the 64-byte write buffer. Every encoder has a decoder beside it, written
  from the format's standard (RFC 1950, RFC 1951, ISO/IEC 15948, TGA 2.0, Radiance), and decoding undoes encoding.
* **Entity component system** (`Source/DensifySystem/Collection.*`). Entity handles, archetype graph, archetype tables
  with free lists, and the deferred command buffer. A run of operations ends with just the components that a simple
  semantics gives, which applies every command at once to a plain set.
* **Struct layouts** (`Source/Data/DataLayout*`, `DataTypes.cpp`, `DataBufferVector.cpp`). The parser of struct
  descriptions, alignment and offsets, the flat record table with its strings, and the dotted-name index.
* **SHA-256** (`Source/Core/Sha256.h`). The incremental hasher against FIPS 180-4, for every way of cutting the input.

`dafny verify dfyconfig.toml` checks everything.

## How it is built

| component | reference definitions | model and proofs |
|---|---|---|
| zlib | `Inflate.dfy` (decoder) | `BitStream`, `Tokens`, `Lz77`, `Adler32`, `Zlib` |
| PNG, TGA, HDR | readers in `Png`, `TgaRle`, `HdrRle` | `Png`, `WriteBuffer`, `TgaRle`, `HdrRle` |
| ECS | `Commands.dfy` (simple semantics) | `Entities`, `Ordered`, `RowTables`, `Moves`, `ArchetypeGraph`, `Collection` |
| layouts | `NameIndex.dfy` (plain walk), `Flatten.ForEachRead` | `DataTypes`, `StructLayout`, `Flatten`, `BufferVector`, `DataLayout` |
| parser | `Reader.dfy` (grammar over tokens), `Syntax.dfy` (what may be written) | `Lexer`, `Parser`, `Rendering`; `Crowded` for texts with too few blanks; `Sample`, the definitions of the start-up code |
| SHA-256 | `Sha256Spec.dfy` | `Sha256`; `Sha256Constants`, where its constants come from |

Classes of the source are classes here, with invariants over their fields stated as predicates on values. Pointers passed
in and out become out-parameters. Exceptions and null results become `Option`, an outcome datatype or a success flag. Sets
that the source iterates in the order of its container are taken in an arbitrary order. Methods whose proof only passes
facts on `hide` the definitions they do not need.

Some expectations fail in the code as it stands, and the exact condition is proved instead:

* Compressing the empty string writes no block, so no decoder accepts it: `Zlib.Compress` decodes to its input if and only
  if the input is not empty.
* The parser puts the name of the first member's type back twice. A text of definitions is read back if and only if behind
  every opening brace stand at least as many blanks as that name is long (`Crowded.ReadsBackIff`, for any way of writing the
  definitions). With fewer, reading goes on before the brace, and a name read there ends before the brace: the first type that
  is read is shorter than the one written (`Crowded.CrowdedBody`). `struct S{float x;}` is an example
  (`Rendering.ExampleReadsBackIff`).
* A member of basic type is dropped without notice if 255 members are there already or one of basic type has its name
  (`Parser.KeptIff`). What `Parse` returns is what was written, all members in order, if and only if there is room behind every
  brace and no member is dropped (`Parser.ParsedBackIff`).
* A printed type name is read back if and only if the type is not one of the six unsigned vectors
  (`DataTypes.NameRoundTrip`).
* A new handle repeats one that was issued before if and only if its index was removed at least 2^32 times, or no index was
  free after 2^32 of them had been asked for at the end: the 32-bit size has then wrapped, and the index is that of a living
  entity (`Entities.EntityVector.NewEntity`). Handles of indices at or above a wrapped size are not found
  (`Entities.EntityVector.AliveIsLives`).
* An entity that is created with bit 29 in its user flags counts as marked without being listed: after a submit it still has
  no components, whatever was recorded for it (`Collections.Collection.SubmitCommand`). Every other entity has what it should.
* Alignment and size of a basic type follow from its name, but the unsigned 64-bit vectors have the sizes of the matrices of their
  dimension (`DataTypes.SizesFollowNames`).
* A member of struct type holds its struct if and only if it is no array with a dimension of 0, or its struct is empty
  (`StructLayout.FitsIff`). A member below it can else lie outside the outermost struct (`StructLayout.NoRoomOutside`).

Where comments and code disagree, the code is followed: the info segment holds names, descriptions and array dimensions in
this order (`Source/Data/DataLayout.cpp:44-67`), not the order drawn at `Source/Data/DataLayout.hpp:44-46`.

## Model

| member | source | states |
|---|---|---|
| BitStream.Flush | Source/Image/stb_image_write.h:897-904 | moving whole bytes out of the accumulator leaves the bit sequence written so far unchanged and fewer than eight bits waiting |
| BitStream.ShiftInIsSum | Source/Image/stb_image_write.h:934 | or-ing a shifted code into the 32-bit accumulator adds it, because the operands do not meet and nothing is shifted out at the top |
| BitStream.Add | Source/Image/stb_image_write.h:933-934 | appends the low bits of a code, least significant first, to the bit sequence |
| BitStream.BitRev | Source/Image/stb_image_write.h:906-913 | the reversed code's bits, least significant first, are the code's bits, most significant first |
| BitStream.BytesRoundTrip | Source/Image/stb_image_write.h:897-904 | the bytes are determined by their bits |
| Tokens.LengthFits | Source/Image/stb_image_write.h:954-956 | each length row has the standard's base and extra bits, and its extra bits reach up to the next row |
| Tokens.DistanceFits | Source/Image/stb_image_write.h:957-959 | the same for distance rows |
| Tokens.CodeDecodes | Source/Image/stb_image_write.h:937-943 | the fixed Huffman code of every symbol is decoded to that symbol and exactly its own bits are used, whatever follows |
| Tokens.PairDecodes | Source/Image/stb_image_write.h:1017-1024 | a length code, its extra bits, a distance code and its extra bits are decoded to that length and distance, whatever follows |
| Tokens.DecodeToken | Source/Image/stb_image_write.h:1014-1029 | decoding a token's bits applies it to the text so far and goes on behind it |
| Tokens.DecodeBlock | Source/Image/stb_image_write.h:1031-1034 | a block of tokens with an end symbol decodes to what the tokens spell and stops there |
| Lz77.CountM | Source/Image/stb_image_write.h:915-920 | the number of equal bytes, at most 258 and within the data |
| Lz77.CopyMatch | Source/Image/stb_image_write.h:982-990 | copying any part of a match from its distance reproduces the text, also where source and target overlap |
| Lz77.FindLongest | Source/Image/stb_image_write.h:978-990 | the last of the longest matches in the bucket and the window, if any has three bytes |
| Lz77.SameBucket | Source/Image/stb_image_write.h:922-931 | places with the same three bytes share a bucket |
| Lz77.LongestMatch | Source/Image/stb_image_write.h:982-990 | no listed match in the window is longer than the one that is found |
| Lz77.NextIsBetter | Source/Image/stb_image_write.h:998-1012 | whether some entry in the window starts a longer match one byte on |
| Zlib.Remember | Source/Image/stb_image_write.h:991-996 | a full bucket loses its older half, the position is added, and all entries stay earlier positions |
| Zlib.TableNewest | Source/Image/stb_image_write.h:991-996 | every bucket holds, in order, the newest places of its hash, and as many as the quality if there were so many |
| Zlib.NewestFound | Source/Image/stb_image_write.h:976-996 | no match is missed: what is found is as long as the match of any place with the same three bytes that is in the window and among the newest of its bucket |
| Zlib.Choose | Source/Image/stb_image_write.h:976-1012 | the choice of the plan: the longest remembered match unless the next byte starts a longer one; a match is 3 to 258 bytes at a distance of 1 to 32767, and none with the newest places of the bucket is longer |
| Zlib.FindRow | Source/Image/stb_image_write.h:1017-1021 | the table row whose range holds the value |
| Zlib.EmitMatch | Source/Image/stb_image_write.h:1014-1025 | writes bits that are decoded to this length and distance |
| Zlib.Pad | Source/Image/stb_image_write.h:1035-1037 | appends just the zero bits that fill the last byte |
| Zlib.CompressFixed | Source/Image/stb_image_write.h:967-1037 | the tokens are those of the plan, they spell the data, and header, tokens, end symbol and zero padding are exactly what was written |
| Zlib.FixedRoundTrip | Source/Image/stb_image_write.h:967-1079 | the standard decoder reads a fixed-Huffman stream of tokens as what they spell, with header and checksum accepted |
| Zlib.StoreBlocks | Source/Image/stb_image_write.h:1043-1058 | writes stored blocks of at most 32767 bytes, the last one marked final |
| Zlib.StoredLength | Source/Image/stb_image_write.h:1044-1046 | the stored form has the length the comparison uses |
| Zlib.StoredRoundTrip | Source/Image/stb_image_write.h:1043-1058 | the standard decoder reads the stored blocks as the data, or nothing if there is no data |
| Adler32.NoWrap | Source/Image/stb_image_write.h:1060-1073 | in a block of at most 5552 bytes that begins reduced, neither sum reaches 2^32 |
| Adler32.Adler | Source/Image/stb_image_write.h:1060-1074 | the deferred sums equal the definition that reduces every byte modulo 65521 |
| Zlib.Compress | Source/Image/stb_image_write.h:949-1084 | decoding returns exactly the data if and only if it is not empty; the output codes the plan, or is the stored form just when that is shorter; the stored form fits into the space of the longer one |
| Png.Paeth | Source/Image/stb_image_write.h:1135-1140 | the neighbour nearest to a + b - c, ties in the order a, b, c |
| Png.SameFilter | Source/Image/stb_image_write.h:1145-1195 | the inner filter types, with 5 and 6 for 3 and 4 on the first row, compute what the stored filter byte says |
| Png.UnfilterFiltered | Source/Image/stb_image_write.h:1143-1195 | reconstruction undoes filtering for every filter type |
| Png.EncodePngLine | Source/Image/stb_image_write.h:1143-1195 | the line buffer is the filtered row, and reconstruction with the stored filter byte and the row above returns the row, for either direction of writing |
| Png.BestFilter | Source/Image/stb_image_write.h:1224-1242 | the first filter of least estimated cost, among those below 2^31 - 1 |
| Png.SignedSizeLeast | Source/Image/stb_image_write.h:1230-1232 | a byte costs what it differs, up or down, from the nearest multiple of 256 |
| Png.RowByte | Source/Image/stb_image_write.h:1143-1152 | the bytes of the rows are those of the image at the stride, rows one directly behind the other for stride 0, the last one first when flipped |
| Png.WriteImageData | Source/Image/stb_image_write.h:1197-1249 | decompressing the image data gives every row filtered, behind the byte of its filter, which is the forced one or else the best one; reconstructing all rows gives back the image, a stride of 0 standing for rows without gaps; without rows there is nothing to decode |
| WriteBuffer.WriteContext.Flush | Source/Image/stb_image_write.h:377-382 | everything written reaches the callback, in order |
| WriteBuffer.WriteContext.Write1 | Source/Image/stb_image_write.h:388-391 | buffered writing of a byte appends it to what was written |
| WriteBuffer.WriteContext.Write3 | Source/Image/stb_image_write.h:393-401 | the same for three bytes |
| TgaRle.NextPacket | Source/Image/stb_image_write.h:632-659 | where the next packet ends: a run as long as pixels are equal, a raw packet before a pixel equal to the one two before it, at most 128 pixels |
| TgaRle.WritePixel | Source/Image/stb_image_write.h:403-429 | writes colours in the order blue, green, red, then alpha; one or two channels as they are |
| TgaRle.PixelRoundTrip | Source/Image/stb_image_write.h:403-429 | read by index as TGA 2.0 orders the bytes, the bytes of a pixel are that pixel |
| TgaRle.WritePacket | Source/Image/stb_image_write.h:632-675 | a packet of 1 to 128 pixels that expands to the next pixels of the row |
| TgaRle.WriteRow | Source/Image/stb_image_write.h:628-676 | the packets of a row expand to that row and no further |
| TgaRle.DecodeAll | Source/Image/stb_image_write.h:661-675 | a decoder restores the pixels from any sequence of packets |
| TgaRle.WriteTgaPackets | Source/Image/stb_image_write.h:613-678 | what the callback receives is decoded, by a reader of its own, to the pixels of all rows |
| TgaRle.PixelSent | Source/Image/stb_image_write.h:613-678 | all pixels are sent; pixel i of the k-th row sent is that pixel of the k-th row of the image from the bottom or, flipped, from the top |
| HdrRle.FindRun | Source/Image/stb_image_write.h:787-793 | the first place where three equal bytes begin, or the end |
| HdrRle.WritePlane | Source/Image/stb_image_write.h:784-817 | dumps of 1 to 128 and runs of 1 to 127 bytes that are read back as the plane, whatever follows; no dump holds three equal bytes in a row, every run stretch has at least three, and stretches are cut at the maximum only; the loops end |
| HdrRle.WriteScanline | Source/Image/stb_image_write.h:738-818 | a scanline of any width is read back: flat below 8 and from 32768 on, else as a header and four planes |
| Entities.SetDirtyBits | Source/DensifySystem/Collection.hpp:164-171 | marking an entity sets bit 29 and leaves every other bit |
| Entities.ClearDirtyBits | Source/DensifySystem/Collection.hpp:173-175 | unmarking clears bit 29 and leaves every other bit |
| Entities.NewFlagBits | Source/DensifySystem/Collection.hpp:211-216 | a new entity is alive, and unmarked just when the user's flags are |
| Entities.FlagsRead | Source/DensifySystem/Collection.hpp:139-193 | alive, named and marked are bits 31, 30 with 31, and 29 of the flag word |
| Entities.NewFlagReads | Source/DensifySystem/Collection.hpp:155-216 | a new entity is named just when it has a name, and its user flags are the 30 low bits given |
| Entities.SameHandle | Source/DensifySystem/Collection.hpp:257-266 | as versions are 32-bit values, two lives share a handle exactly when they are lives of one index a multiple of 2^32 removals apart |
| Entities.EntityVector.AliveIsLives | Source/DensifySystem/Collection.hpp:139-144 | the look-up answers for exactly the handles issued and not yet removed, of indices below the size; with fewer than 2^32 entries that is all of them |
| Entities.EntityVector.AliveUntilRemoved | Source/DensifySystem/Collection.hpp:139-144 | for an index below the size: with fewer than 2^32 removals a handle that was issued answers until its own removal and no longer; beyond, just while some life a multiple of 2^32 removals later goes on |
| Entities.EntityVector.NewEntity | Source/DensifySystem/Collection.hpp:195-219 | the handle of the next life of the last freed index or of the one at the 32-bit size, or an invalid handle beyond the limit; it repeats a handle that was issued before if and only if the index was removed at least 2^32 times or the size has wrapped; the free list keeps naming the dead indices, each once |
| Entities.EntityVector.RemoveEntity | Source/DensifySystem/Collection.hpp:257-266 | ends exactly the life with this handle and frees its index, or changes nothing |
| Ordered.SortSorted | Source/DensifySystem/Collection.cpp:911 | sorting a list without repetitions gives an ascending list of the same components |
| Ordered.SameList | Source/DensifySystem/Collection.cpp:923-928 | ascending lists with the same components are equal, so a list names a set |
| RowTables.EmplaceColumns | Source/DensifySystem/Collection.hpp:372-384 | reserving leaves the columns ahead by just the rows that the placements will append |
| RowTables.PutColumns | Source/DensifySystem/Collection.cpp:476-487 | each placement uses up what was reserved for it |
| RowTables.RoomFor | Source/DensifySystem/Collection.cpp:476-487 | a table never has more rows than there are entities, so a row number fits 32 bits |
| RowTables.MoveKeepsRows | Source/DensifySystem/Collection.cpp:471-502 | moving one entity keeps the bijection between entities and occupied rows, the free lists, and every other entity's word |
| RowTables.CreateTables | Source/DensifySystem/Collection.cpp:33-48 | placing a new entity keeps the bijection, the free list and the columns |
| RowTables.OneRowEach | Source/DensifySystem/Collection.cpp:471-502 | a row holds an entity if and only if the entity's packed word names that archetype and row |
| ArchetypeGraph.EnterPositions | Source/DensifySystem/Collection.cpp:935-946 | every component is entered with its first column, pairs taking two |
| ArchetypeGraph.NewTableColumns | Source/DensifySystem/Collection.hpp:346-360 | a new archetype's table has a column for just the data its components have, at the place of the component, two for a pair, and no other column |
| ArchetypeGraph.SlotsApart | Source/DensifySystem/Collection.hpp:346-360 | different components have different columns |
| ArchetypeGraph.SameNode | Source/DensifySystem/Collection.cpp:923-953 | nodes with the same non-empty components are one node |
| ArchetypeGraph.Graph.CreateNode | Source/DensifySystem/Collection.cpp:930-953 | adds one node with this list and an empty table with the columns of its components, and keeps lists, edges, tables and component index consistent |
| ArchetypeGraph.Graph.GetOrCreate | Source/DensifySystem/Collection.cpp:923-953 | the node with exactly this list, found or made |
| ArchetypeGraph.Graph.EdgeAdd | Source/DensifySystem/Collection.cpp:900-919 | leads to the node with the component added, caches the edge, and links back when the edge is new |
| ArchetypeGraph.Graph.EdgeRemove | Source/DensifySystem/Collection.cpp:870-896 | leads to the node with the component removed, to the root from an empty list, caches the edge, and links back when it is new |
| ArchetypeGraph.Graph.HasComponent | Source/DensifySystem/Collection.cpp:518-524 | the component index answers whether the entity's archetype has the component |
| ArchetypeGraph.Graph.ColumnFacts | Source/DensifySystem/Collection.hpp:346-360 | at every time the component index leads to the columns of a component, one for each part of it that has data |
| ArchetypeGraph.Graph.ColumnsApart | Source/DensifySystem/Collection.hpp:346-360 | no column belongs to two components |
| ArchetypeGraph.Graph.Walk | Source/DensifySystem/Collection.cpp:236-245 | the pending commands lead to the archetype with just the wanted components, in whatever order they are taken |
| Commands.RecordStep | Source/DensifySystem/Collection.cpp:158-169 | recording one command, with cancellation, has the effect of applying it at once |
| Commands.NeverBoth | Source/DensifySystem/Collection.cpp:158-169 | no component has both an add and a remove pending |
| Commands.WalkStep | Source/DensifySystem/Collection.cpp:236-245 | carrying out any one pending command leaves the rest to do the remaining work |
| Commands.SettledIff | Source/DensifySystem/Collection.cpp:228-251 | an entity has what it should have if and only if nothing is pending |
| Moves.ListMove | Source/DensifySystem/Collection.cpp:248-255 | a listed move never leads an archetype to itself, and captures the entity's row |
| Moves.FinishMove | Source/DensifySystem/Collection.cpp:471-502 | carrying out a move brings that entity to rest and leaves all other captured rows valid |
| Collections.MoveEntities | Source/DensifySystem/Collection.cpp:448-502 | the moves of one pair keep bijection, free lists and column lengths, and finish every listed entity |
| Collections.Collection.CreateSingleEntity | Source/DensifySystem/Collection.cpp:14-51 | the new entity has no components and a row of the root archetype; a name registers it as a component without data; flags with bit 29 set make it stuck |
| Collections.Collection.RecordCommand | Source/DensifySystem/Collection.cpp:158-169 | one recorded command advances the simple semantics by that command |
| Collections.Collection.RecordModify | Source/DensifySystem/Collection.cpp:115-214 | the commands for all entities advance the simple semantics, one after the other |
| Collections.Collection.RecordHandles | Source/DensifySystem/Collection.cpp:93-113 | an unregistered component stops the whole call; dead handles are skipped |
| Collections.Collection.FindTarget | Source/DensifySystem/Collection.cpp:236-245 | the target archetype has the components the simple semantics gives the entity |
| Collections.Collection.Preprocess | Source/DensifySystem/Collection.cpp:216-277 | afterwards no command is pending but for stuck entities, and every changed entity is listed exactly once under a pair of different archetypes |
| Collections.Collection.MoveKey | Source/DensifySystem/Collection.cpp:432-507 | one pair's moves leave all other listed moves valid |
| Collections.Collection.SubmitMoves | Source/DensifySystem/Collection.cpp:421-509 | all listed moves are carried out, whatever the order of the pairs |
| Collections.Collection.SubmitCommand | Source/DensifySystem/Collection.cpp:326-353 | every entity has exactly the components of the simple semantics, but stuck entities have none; no command, mark or move is left for the others |
| Collections.Collection.Replay | Source/DensifySystem/Collection.cpp:14-353 | over any run of creations, recordings and submits the invariant holds; the stuck entities are those created with bit 29 set, components keep their layouts, and after a final submit every other entity has what the simple semantics computes from the whole run |
| Collections.Collection.CellOf | Source/DensifySystem/Collection.cpp:448-502 | after every operation, each component of an entity has a column for just the data it has, and the entity's row lies in that column |
| DataTypes.NameRoundTrip | Source/Data/DataTypes.cpp:120-234 | a printed type name is read back if and only if the type is no unsigned vector |
| DataTypes.NameExact | Source/Data/DataTypes.cpp:120-183 | only a type's printed name is read as that type, but for the lower-case names of the unsigned vectors, which stand for signed ones |
| DataTypes.NameIff | Source/Data/DataTypes.cpp:120-183 | exactly the printed names, without those of the unsigned vectors, and six lower-case names for these are read as a type |
| DataTypes.SizesFollowNames | Source/Data/DataTypes.cpp:6-118 | alignment and size of every basic type follow from what its name says of shape and bits; unsigned 64-bit vectors are given the sizes of matrices |
| StructLayout.AlignUpLeast | Source/Data/DataLayoutStructureDescriptor.hpp:10-12 | the aligned size is the least multiple of the alignment not below the size |
| StructLayout.StructDescriptor.AddNormalMember | Source/Data/DataLayoutStructureDescriptor.cpp:17-61 | a taken name or 255 members ignore the member, an invalid type fails, otherwise it is added with the size of all its elements and the members stay packed |
| StructLayout.StructDescriptor.AddStructureMember | Source/Data/DataLayoutStructureDescriptor.cpp:63-88 | the member is added at the struct's alignment at least, with the size of all its elements, and the members stay packed |
| StructLayout.StructDescriptor.Compile | Source/Data/DataLayoutStructureDescriptor.cpp:90-93 | alignment and size of a compiled struct |
| StructLayout.LeastOffset | Source/Data/DataLayoutStructureDescriptor.cpp:38-59 | each offset is a multiple of the larger one of type's and member's alignment, and the least possible behind the end of the member before it |
| StructLayout.ElementsInside | Source/Data/DataLayoutStructureDescriptor.cpp:45-47 | the elements of an array member, row by row, lie inside it, and no two of them overlap |
| StructLayout.LastElement | Source/Data/DataLayoutStructureDescriptor.cpp:45-47 | without a dimension of 0 the last element ends where the member ends |
| StructLayout.MaxAttained | Source/Data/DataLayoutStructureDescriptor.cpp:51 | the largest alignment of the members is that of one of them, or 1 |
| StructLayout.InOrder | Source/Data/DataLayoutStructureDescriptor.cpp:38-88 | members follow one another without overlap |
| StructLayout.NestedAligned | Source/Data/DataLayoutStructureDescriptor.cpp:38-93 | with powers of two, every member at every depth has an aligned address |
| StructLayout.NestedInside | Source/Data/DataLayoutStructureDescriptor.cpp:38-93 | every member at every depth lies inside the outermost struct, if the members above it have room for their structs; where the path ends does not matter |
| StructLayout.FitsIff | Source/Data/DataLayoutStructureDescriptor.cpp:72-83 | a struct fits into the member that holds it if and only if no dimension is 0 or the struct is empty |
| StructLayout.NoRoomOutside | Source/Data/DataLayoutStructureDescriptor.cpp:72-83 | in B { A[0] a; } with A { i32 x; } the member a.x ends behind B |
| BufferVector.DataBufferVector.PushBack | Source/Data/DataBufferVector.cpp:26-48 | growing keeps the contents, and the pushed bytes are appended |
| Flatten.RecordCount | Source/Data/DataLayoutStructureDescriptor.hpp:65-75 | flattening adds as many records as the struct has members at all depths |
| Flatten.FlattenLaid | Source/Data/DataLayout.cpp:281-361 | every struct becomes one block of records that describe its members, reached by a strictly forward offset, and nothing before it changes |
| Flatten.RecordNth | Source/Data/DataLayout.cpp:281-361 | record number n tells of member number n, a struct's own members first, then block by block: its name, description, sizes and absolute address |
| Flatten.VisitDataPacketDesc | Source/Data/DataLayout.cpp:281-361 | the two loops and the recursion compute the flattened table |
| Flatten.VisitSub | Source/Data/DataLayout.hpp:119-151 | the visited record numbers, with their depths, are those of the plain walk over the struct, in the same order |
| Flatten.NumbersRead | Source/Data/DataLayoutStructureDescriptor.hpp:90-98 | call by call, the numbers stand for the members of for_each_read, with the same depths |
| Flatten.NumbersAll | Source/Data/DataLayout.hpp:119-151 | every record is among the numbers; as they are as many as the records, each is visited exactly once |
| DataLayouts.FieldWidths | Source/Data/DataLayout.hpp:13-36 | head and records are as large as their fields |
| DataLayouts.LaidMoved | Source/Data/DataLayout.cpp:44-53 | relocating the offsets keeps the description valid for the joined segment, with strings and array dimensions |
| DataLayouts.TextRead | Source/Data/DataLayout.cpp:155-171 | a string is read back from its offset, 0 standing for none |
| DataLayouts.GenerateNames | Source/Data/DataLayout.cpp:363-379 | adds to the index just the names the plain walk finds, behind the prefix |
| DataLayouts.DataLayout.constructor | Source/Data/DataLayout.cpp:20-85 | the compiled records describe the struct; the index holds a name if and only if the plain walk finds it, with the sum of the offsets and the record's number |
| DataLayouts.DataLayout.ReadStrings | Source/Data/DataLayout.cpp:155-171 | name and description of every record are exactly the descriptor's |
| DataLayouts.DimensionRead | Source/Data/DataLayout.cpp:173-190 | the bytes of a dimension are read back as its 32-bit value |
| DataLayouts.DataLayout.GetMemberArrayInfo | Source/Data/DataLayout.cpp:173-190 | for members of at most one dimension: the dimension is read back from the info segment, and there is none just for members that are no arrays |
| DataLayouts.DataLayout.Visit | Source/Data/DataLayout.hpp:119-127 | the callback sees the record numbers and depths of the plain walk over the struct, in order |
| DataLayouts.VisitReads | Source/Data/DataLayout.hpp:119-127 | call number j of visit leads to the record of member number j of for_each_read, with its depth, name, description, sizes and absolute address; every record is visited once |
| NameIndex.BeginsWith | Source/Data/DataLayout.cpp:374-376 | a dotted name begins with a name and a dot if and only if that name is its part before the first dot |
| NameIndex.OneMember | Source/Data/DataLayout.cpp:363-379 | one more member adds its own name and, unless it is an array, the names inside it |
| Lexer.PutBackGet | Source/Data/DataLayoutStructureDescriptorParser.hpp:53 | getting a token, putting it back and getting again yields the same token at the same place, for every token but strings |
| Lexer.SkipsBlanks | Source/Data/DataLayoutStructureDescriptorParser.hpp:41 | between tokens just the characters 8 to 13 and 32 are skipped |
| Lexer.NameToken | Source/Data/DataLayoutStructureDescriptorParser.hpp:43-47 | a name is a longest run of letters, digits and underscores, given by their codes, that begins with no digit |
| Lexer.UnescapedIff | Source/Data/DataLayoutStructureDescriptorParser.cpp:57-95 | just backslash, quote, n and t may follow a backslash |
| Lexer.PutBackTwice | Source/Data/DataLayoutStructureDescriptorParser.cpp:156-168 | after two put-backs the name is read again if and only if as many blanks as it is long stand before it; with fewer places the position wraps to behind the text |
| Lexer.QuotedEscape | Source/Data/DataLayoutStructureDescriptorParser.cpp:57-95 | a quoted text is read back from its escaped form |
| Lexer.NumberOfDigits | Source/Data/DataLayoutStructureDescriptorParser.cpp:294-301 | a number is read back from its digits |
| Parser.DescriptorParser.GetNextToken | Source/Data/DataLayoutStructureDescriptorParser.cpp:35-101 | the loops compute the next token, or fail for a malformed string |
| Reader.UndoIsExact | Source/Data/DataLayoutStructureDescriptorParser.hpp:53 | what is read after looking at a token and putting it back is that token again, for every token but strings |
| Reader.StringAgain | Source/Data/DataLayoutStructureDescriptorParser.hpp:53 | a string without escapes is read again after being put back |
| Reader.IntRange | Source/Data/DataLayoutStructureDescriptorParser.cpp:243-302 | integers are read up to 2^31 - 1, and an alignment is kept modulo 2^16 |
| Parser.DescriptorParser.ParseArrayInfo | Source/Data/DataLayoutStructureDescriptorParser.cpp:243-273 | for every text: the dimensions the grammar reads, with the place behind them, or failure; the loop ends |
| Parser.DescriptorParser.ParseTail | Source/Data/DataLayoutStructureDescriptorParser.cpp:267-302 | for every text: an optional description and an optional alignment, as the grammar reads them |
| Parser.DescriptorParser.ParseSingle | Source/Data/DataLayoutStructureDescriptorParser.cpp:185-218 | for every text: adds, ignores or refuses the member the grammar reads |
| Parser.DescriptorParser.ParseMembers | Source/Data/DataLayoutStructureDescriptorParser.cpp:149-178 | for every text: the members from where the double put-back leads, up to the closing brace; the loop ends |
| Parser.DescriptorParser.StartParseStruct | Source/Data/DataLayoutStructureDescriptorParser.cpp:103-183 | for every text: one definition more, built from the structs before it, or the end, or failure, a number out of range counting as failure |
| Parser.DescriptorParser.Parse | Source/Data/DataLayoutStructureDescriptorParser.cpp:6-25 | for every text: fails if and only if the grammar reads no definitions, a number out of range counting as failure, else returns the structs built from the definitions it reads; parsing ends |
| Parser.KeptIff | Source/Data/DataLayoutStructureDescriptor.cpp:20-30 | all members of a definition are added if and only if every member of basic type is among the first 255 and no earlier one of basic type has its name; else fewer are added |
| Parser.BuiltIff | Source/Data/DataLayoutStructureDescriptorParser.cpp:103-183 | the structs built from definitions are just the ones defined if and only if all members of each are added |
| Parser.ParsedBackIff | Source/Data/DataLayoutStructureDescriptorParser.cpp:6-25 | for every text of definitions, in whatever way it is written: parsing returns just these definitions, compiled, all members in order, if and only if there is room behind every brace and all members are added |
| Syntax.ReadsBack | Source/Data/DataLayoutStructureDescriptorParser.cpp:103-302 | every text with the tokens of some definitions is read as just these, whatever blanks stand between the tokens and whatever optional parts are written, if there is room behind the braces |
| Syntax.HopInRoom | Source/Data/DataLayoutStructureDescriptorParser.cpp:156-168 | with as many blanks as it is long, a token that is put back twice is still the next one |
| Crowded.CrowdedBody | Source/Data/DataLayoutStructureDescriptorParser.cpp:156-168 | without room, the members read behind a brace begin with a type whose name is shorter than the one that stands there |
| Crowded.CrowdedFails | Source/Data/DataLayoutStructureDescriptorParser.cpp:156-168 | with too few blanks behind some opening brace, if anything is read, the first struct without room begins with a type of a shorter name, and all before it are as written |
| Crowded.ReadsBackIff | Source/Data/DataLayoutStructureDescriptorParser.cpp:6-302 | a text of definitions is read back as just these if and only if behind every opening brace stand at least as many blanks as the name of the first member's type is long |
| Rendering.Rendered | Source/Data/DataLayoutStructureDescriptorParser.cpp:27-101 | tokens written with any of the characters 8 to 13 and 32 between them, if they stay apart, are read as these tokens |
| Rendering.RenderReadsBackIff | Source/Data/DataLayoutStructureDescriptorParser.cpp:6-302 | the same condition, in terms of the blanks that were written |
| Rendering.PrintedReadsBackIff | Source/Data/DataLayoutStructureDescriptorParser.cpp:6-302 | definitions that are printed are read back as they were under the same condition |
| Rendering.ExampleReadsBackIff | Source/Data/DataLayoutStructureDescriptorParser.cpp:156-168 | struct S{float x;} with blanks behind the brace is read back if and only if there are at least five |
| Sample.ParseStartUpText | Source/NewMain.cpp:240-260 | the three definitions of the start-up code, with their tabs and line breaks, are read as they are written, and compiled to these sizes, alignments and offsets |
| Sha256.BSig0IsBigSigma0 | Source/Core/Sha256.h:73-80 | the rotations by shifts are the standard's function |
| Sha256.SSig1IsSmallSigma1 | Source/Core/Sha256.h:73-97 | the same for the message schedule |
| Sha256Constants.RoundConstant | Source/Core/Sha256.h:54-61 | each round constant is the first 32 bits of the fraction of the cube root of the prime with that number |
| Sha256Constants.InitialWord | Source/Core/Sha256.h:63 | each word of the initial hash value is that of the square root |
| Sha256Spec.ChChooses | Source/Core/Sha256.h:65-67 | each bit of the first word chooses the bit of the second or of the third |
| Sha256Spec.MajDecides | Source/Core/Sha256.h:69-71 | each bit is set if it is set in two of the three words |
| Sha256Spec.Xor3Counts | Source/Core/Sha256.h:78-97 | each bit of the third word is turned where the first two differ |
| Sha256Spec.PlusWraps | Source/Core/Sha256.h:99-143 | words are added modulo 2^32 |
| Sha256Spec.WordIsSum | Source/Core/Sha256.h:103-106 | four bytes are a word, the first one highest |
| Sha256.Schedule | Source/Core/Sha256.h:103-110 | the schedule filled front to back is the standard's |
| Sha256.RunRounds | Source/Core/Sha256.h:112-131 | the 64 rounds on eight variables are the standard's |
| Sha256.HashBlock | Source/Core/Sha256.h:99-143 | one block updates the chaining value as the standard says |
| Sha256.AddToDataLength | Source/Core/Sha256.h:231-243 | the four digits hold the sum modulo 2^64 |
| Sha256.BitLengthDigits | Source/Core/Sha256.h:244-255 | the shifted digits hold eight times the length modulo 2^64 |
| Sha256.WriteDataBitLength | Source/Core/Sha256.h:244-261 | the last eight bytes of the block are the length in bits, highest byte first |
| Sha256.OneBlock | Source/Core/Sha256.h:203-220 | with up to 55 bytes left, one block completes the standard's padding |
| Sha256.TwoBlocks | Source/Core/Sha256.h:203-220 | with more bytes left, two blocks do |
| Sha256.Hash256.Process | Source/Core/Sha256.h:193-201 | chaining value, buffer and counter stand for the message so far with the chunk appended |
| Sha256.Hash256.Finish | Source/Core/Sha256.h:203-220 | the chaining value is the standard's hash of the message |
| Sha256.Hash256.GetHashBytes | Source/Core/Sha256.h:222-228 | the bytes of the hash, as many as fit |
| Sha256.WordBytesAt | Source/Core/Sha256.h:222-228 | the words can be read back from those bytes |
| Sha256.HashChunks | Source/Core/Sha256.h:187-228 | the digest is the standard's for the concatenation, however the message is cut |
| Sha256.HashStream | Source/Core/Sha256.h:291-309 | hashing through a buffer of any positive size gives the same digest |
| Sha256Spec.PadZerosLeast | Source/Core/Sha256.h:203-220 | the number of zero bytes is the least that completes a block |

## Left out

- Compress: `data_len` is a 32-bit int in the source; sizes near 2 GiB, at which it overflows, and failing allocations are not modelled.
- Inflate: the reference decoder refuses dynamic Huffman blocks, which the compressor never writes.
- BestFilter: the estimate is unbounded; in the source it is a 32-bit int, which overflows for rows above about 16.7 million bytes. The choice may then differ, the round trip of `WriteImageData` does not depend on it.
- EncodePngLine: the width is at least 1, because the first-pixel loop runs over the channels whatever the width.
- WriteImageData: PNG signature, chunk framing and CRC are not part of this model, nor the size of `(x * n + 1) * y` as a 32-bit int.
- WriteTgaPackets: the TGA header and the branch without run-length packets are left out.
- WriteScanline: pixels are given as RGBE bytes; the conversion from floating point and the file header are left out. Old readers take a flat pixel (1, 1, 1, n) as a repeat; the conversion never yields one, as its largest mantissa is at least 128.
- BMP and JPEG output, file output and formatted writing.
- CreateSingleEntity: creation beyond `ENTITY_LIMIT_COUNT` is excluded; the source then puts the invalid index into an occupied row of the root and writes the row word at index 0xFFFFFFFF, outside its vector. The last admissible index is excluded for named entities if a static component has that number as its id. Bulk creation is left out.
- Replay: the same holds for runs: they create no more entities than the limit admits.
- RemoveEntity: removal is proved for the handles alone, as the collection does not free the row of a removed entity; a collection run has no removals.
- RecordModify: only the single-threaded branches, taken for at most 5000 entities, are modelled.
- MoveEntities: row and column bookkeeping only; copying component bytes is left out.
- SubmitMoves: archetype ids are unbounded, and a recorded pair is a pair of ids instead of a packed word; wrap-around of the id counter is not modelled.
- Graph: nodes are held by id in maps, one per field, instead of behind pointers; registering static components and creating pairs happens before a run.
- Graph.EdgeRemove: the root is not registered under the empty list, so a second empty node can appear; `SameNode` is stated for non-empty lists.
- AddNormalMember: sizes are unbounded; 64-bit wrap-around, members added after compiling, and recompiling are not modelled. A member of struct type holds the struct as it was when added.
- FlattenStruct: the counts of documents and pointers and their linear indices are left out.
- VisitSub: depths are unbounded; `for_each_read` counts them in a byte.
- DataLayout: the head and the records are not serialised into the info segment byte by byte; their space is accounted for.
- GetMemberArrayInfo: members of several dimensions are excluded; their dimensions are stored, but the source makes a list of one element for them, whatever their number.
- BucketOf: nothing is promised of the mixing function beyond equal buckets for equal bytes; any function would do for the round trip.
- DataBufferVector: enlarging the underlying buffer is taken to keep its contents; popping, fetching and moving are left out.
- Parse: line numbers and messages are left out. An array dimension or a member's alignment out of the range of an int is taken as failure; the source reads it with `std::stoi`, whose `std::out_of_range` the handler for `Exception` does not catch, so that it reaches the caller instead of a null result. Positions are 32-bit values, so the text is shorter than 2^32.
- StartParseStruct: a struct's alignment is read with `std::atoi`, which does not throw; out of the range of an int its value is undefined in C, and the model takes it as failure.
- HashBlock: words are 32-bit values; a 64-bit `unsigned long` is masked to the same values by the source.
- Process: a chunk is shorter than 2^32 - 65535 bytes, so that the digit sum does not wrap.
- HashStream: the buffer size is positive; with 0 the source's loop does not end.
- Drawing, windows, shaders, node system, allocators, locks and the remaining containers.
