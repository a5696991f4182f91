# Game of Life over eBPF: a Dafny model

This project models a Game of Life that runs inside the Linux kernel and is
drawn by a user-space reader.

## The kernel program (`bpf_life.c`)

The kernel program keeps a 64×64 toroidal board in a BPF array map. Each board
byte packs two things:
- the cell's alive bit (bit 0);
- twice the number of its live neighbours.

`cell_math` sets or clears the alive bit of one cell. It then adds ±2 to the
bytes of the cell's eight neighbours. The index arithmetic is unsigned 32-bit
and masked with `0xfff`.

`next_generation` sweeps a snapshot (`temp`) row by row and applies the Life
rule through `set_cell`/`clear_cell`.

`send_update` copies the board into a ring-buffer record. `bpf_life` starts the
game once, on the first egress TCP packet whose source port field reads
`0x71fe`.

## The reader (`main.go`)

The reader does four things that are modelled here:
- it decodes each ring-buffer record into `MsgLifeEvent` (4096 cell bytes and four `uint32`s in host byte order);
- `readLoop` renders each decoded event with `printCells`, until the reader is closed;
- it byte-swaps the port for the kernel (`portSetup`);
- it finds the first `cgroup2` mount (`detectCgroupPath`).

## Modules

| file | module | what it holds |
|---|---|---|
| `wire.dfy` | `Wire` | bytes, `uint32` wrap-around, the record layout, host byte order taken as little-endian |
| `torus.dfy` | `Torus` | `cell_math`'s neighbour index arithmetic, and a toroidal reference it is proved equal to |
| `cellmap.dfy` | `CellMap` | the board as a value: `cell_math`, the neighbour-count encoding and its invariant, the sweep, the Life rule, seeding, copying |
| `life.dfy` | `Life` | the kernel program in imperative form |
| `event.dfy` | `Event` | `MsgLifeEvent` and its decoding |
| `screen.dfy` | `Screen` | `printCells` |
| `consumer.dfy` | `Consumer` | `readLoop` |
| `setup.dfy` | `Setup` | the port byte swap and the mount-table scan |

The kernel program is in imperative form:
- `Life.Board` is `struct cellmap`, with `cells` and `temp` as arrays;
- `Life.Kernel` holds the globals `game_round` and `started`, and the samples submitted to the ring buffer.

Every method that changes the board is proved against the value-level definitions in `CellMap`. `Life.ParseKickoff` is proved against `Life.Kickoff`, and the result of `Life.Kernel.BpfLife` against `Life.Verdict`.

The central results are:
- on a board whose bytes are correctly encoded, one `do_game` tick computes exactly the next Game of Life generation (`CellMap.NextGenerationIsLife`, `Life.Kernel.DoGame`);
- the program's own seeding (`random_init`) gives an encoded board when its 400 draws hit distinct dead cells (`Life.Kernel.BpfLife`, `CellMap.SeedFreshIsChecked`). A draw that repeats a cell already set breaks the encoding (`CellMap.SeedRepeatMiscounts`), and among 400 draws over 4096 cells a repeat is very likely. The Life theorem of `Life.Kernel.DoGame` assumes an encoded board, so it then no longer applies to the ticks that follow. See "## Findings";
- the sample the kernel submits decodes in user space to the same event (`Event.DecodeSample`). `struct cell_sample` and `MsgLifeEvent` have the same layout, so the kernel's sample bytes are the encoding of that event, and this is the decode/encode round trip `Event.DecodeEncode` applied to it.

Two further facts about the code shape the model:
- Not every bad record is only logged. `printCells` indexes the 4096-byte cell array with `x + y*Width`, so a record whose `Width*Height` exceeds 4096 makes the process panic. The model keeps that panic (`Screen.PrintCells`, `Consumer.ReadLoop`).
- The program sends one record per event, and the reader reassembles nothing.

## Model

| member | source | states |
|---|---|---|
| `Wire.Wrap32` | bpf_life.c:106-115 | unsigned 32-bit wrap: the result is congruent to the input modulo 2^32, and equal to it when in range |
| `Wire.ReadLe32OfLe32` | main.go:72 | reading back the four little-endian bytes of a `uint32` gives the value |
| `Wire.Le32OfReadLe32` | main.go:72 | any four bytes read as a little-endian `uint32` encode back to the same four bytes |
| `Wire.Record` | bpf_life.c:38-44 | the 4112-byte layout: the 4096 cells first, then four `uint32` fields at offsets 4096, 4100, 4104 and 4108 |
| `Event.Decode` | main.go:72-76 | decoding succeeds exactly when at least 4112 bytes are present; it fails with end-of-input exactly when the sample is empty; the cells are the first 4096 bytes |
| `Event.DecodeEncode` | main.go:26-32 | encoding an event and decoding it gives the event back, whatever bytes follow |
| `Event.EncodeDecode` | main.go:72 | a decoded event re-encodes to exactly the 4112 bytes it was read from |
| `Event.DecodeSample` | bpf_life.c:38-44 | every sample the kernel submits decodes to an event with the same cells, generation, width, height and length; the two structs share one layout, so this is the decode/encode round trip applied to the sample |
| `Torus.Masked` | bpf_life.c:63 | `& 0xfff` always gives a board index |
| `Torus.MaskedIndex` | bpf_life.c:101 | masking leaves an in-range offset unchanged |
| `Torus.ToroidalCoords` | bpf_life.c:61-62 | the reference neighbour is one row and one column step away, both taken modulo 64 |
| `Torus.DeltaResidues` | bpf_life.c:78-96 | modulo 4096, each branch of `xleft`, `xright`, `yup` and `ydown` is the same step: a row up or down, or a column left or right with wrap at the row's edge |
| `Torus.NeighbourIndexSum` | bpf_life.c:106-115 | the two wrapped 32-bit additions followed by the mask equal the plain sum of offset and deltas modulo 4096 |
| `Torus.NeighbourIsToroidal` | bpf_life.c:78-115 | for every 32-bit offset, neighbour k as computed is the toroidal neighbour k of `offset & 0xfff` |
| `Torus.ToroidalDistinct` | bpf_life.c:106-115 | the eight toroidal neighbours of a cell differ from it and from each other |
| `Torus.ToroidalSymmetric` | bpf_life.c:106-115 | n is a cell's neighbour k exactly when the cell is n's neighbour in the opposite direction |
| `Torus.RowAboveAsWritten` | bpf_life.c:106-108 | the first three indices are `(offset + yup + xleft)`, `(offset + yup)` and `(offset + yup + xright)`, each wrapped and masked |
| `Torus.SameRowAsWritten` | bpf_life.c:110-111 | the fourth and fifth indices are `(offset + xleft)` and `(offset + xright)`, wrapped and masked |
| `Torus.RowBelowAsWritten` | bpf_life.c:113-115 | the last three indices are `(offset + ydown + xleft)`, `(offset + ydown)` and `(offset + ydown + xright)`, wrapped and masked |
| `Torus.CellMathIndicesToroidal` | bpf_life.c:78-115 | the indices `cell_math` updates are exactly the toroidal neighbours of the masked offset, in the source's order |
| `Torus.NeighboursDistinct` | bpf_life.c:106-115 | no neighbour is updated twice, and the cell itself is not among them |
| `Torus.HitsFacts` | bpf_life.c:106-115 | being a neighbour is symmetric, a cell counts at most once, and never for itself |
| `CellMap.SetAlive` | bpf_life.c:101 | OR-ing in 0x01 sets the alive bit and keeps the neighbour count |
| `CellMap.ClearAlive` | bpf_life.c:103 | `&= ~0x01` clears the alive bit and keeps the neighbour count |
| `CellMap.AddByte` | bpf_life.c:106 | `char += add` is addition modulo 256 |
| `CellMap.AddByteBit` | bpf_life.c:106-115 | adding ±2 to a neighbour never changes its alive bit |
| `CellMap.AddNeighboursAt` | bpf_life.c:106-115 | after the first n neighbour updates, a byte has moved by `add` exactly when its index is among the first n indices |
| `CellMap.CellMathAt` | bpf_life.c:65-118 | after `cell_math`, each byte is: the flipped byte at the cell, moved by `add` at the eight neighbours, and unchanged elsewhere |
| `CellMap.CellMathBits` | bpf_life.c:65-118 | `cell_math` changes the alive bit of the masked cell only (set for a positive `add`, cleared otherwise) |
| `CellMap.ZerosEncoded` | bpf_life.c:54-59 | the all-zero map value is a correctly encoded empty board |
| `CellMap.CellMathKeepsFlipped` | bpf_life.c:100-103 | the flipped cell's byte stays correctly encoded |
| `CellMap.CellMathKeepsNeighbour` | bpf_life.c:106-115 | each neighbour's byte stays correctly encoded |
| `CellMap.CellMathKeepsOther` | bpf_life.c:65-118 | the bytes of every other cell stay correctly encoded |
| `CellMap.CellMathKeepsEncoding` | bpf_life.c:120-130 | setting a dead cell or clearing a live one keeps the encoding invariant for the whole board, and flips exactly that cell's alive bit |
| `CellMap.CellMathWithoutFlipBreaksCell` | bpf_life.c:100-115 | when the alive bit does not actually change, the first neighbour's count goes wrong |
| `CellMap.CellMathWithoutFlipBreaksEncoding` | bpf_life.c:120-130 | setting a live cell or clearing a dead one breaks the invariant, so callers must check the bit first |
| `CellMap.Decide` | bpf_life.c:199-211 | each visited cell is set (+2), cleared (−2) or left (0) |
| `CellMap.DecideFollowsRule` | bpf_life.c:199-211 | on an encoded snapshot the decision is the Life rule (B3/S23): the cell changes exactly when its next state differs from its current one |
| `CellMap.SweepSplit` | bpf_life.c:225-228 | sweeping `[lo, mid)` and then `[mid, hi)` is sweeping `[lo, hi)` |
| `CellMap.ApplyCell` | bpf_life.c:194-212 | applying one cell's decision to an encoded board keeps it encoded, and only that cell's bit changes |
| `CellMap.NextBoardAt` | bpf_life.c:199-211 | the reference next board holds, at each cell, the next alive bit plus twice the number of next-live neighbours |
| `CellMap.NextBoardEncoded` | bpf_life.c:199-211 | the reference next board is correctly encoded, and its live cells are exactly those the Life rule makes alive |
| `CellMap.NextGenerationIsLife` | bpf_life.c:188-228 | on an encoded snapshot, the whole in-order sweep gives exactly the next Game of Life generation, correctly encoded |
| `CellMap.SeedRepeatMiscounts` | bpf_life.c:145-148 | drawing a dead cell once keeps the board encoded; drawing it twice breaks the encoding |
| `CellMap.SeedBits` | bpf_life.c:145-148 | seeding as written makes a cell alive exactly when it was alive before or was drawn |
| `CellMap.SeedFreshIsChecked` | bpf_life.c:145-148 | when every draw hits a distinct cell that is dead, seeding as written gives the same board as the corrected seeding |
| `CellMap.SeedCheckedEncoded` | bpf_life.c:145-148 | seeding that skips live cells keeps an encoded board encoded; the live cells afterwards are the old ones plus the drawn ones |
| `CellMap.CopyCount` | bpf_life.c:242 | the copy loop runs `min(length_in_bytes, 4096)` times |
| `CellMap.FullCopy` | bpf_life.c:242-244 | with `length_in_bytes >= 4096` the snapshot is the whole board |
| `Life.Board.constructor` | bpf_life.c:54-59 | a fresh map value is all zeros, with zero dimensions |
| `Life.Board.AddAt` | bpf_life.c:106 | one neighbour update `cell_ptr[i] += add` advances the pending update count by one |
| `Life.Board.CellMath` | bpf_life.c:65-118 | the in-place updates, in the source's order, leave the board equal to the value-level `cell_math`; `temp` is not touched |
| `Life.Board.SetCell` | bpf_life.c:120-124 | `cell_math(offset, 2)`: on an encoded board with the cell dead, the board stays encoded and exactly that cell becomes alive |
| `Life.Board.ClearCell` | bpf_life.c:126-130 | `cell_math(offset, -2)`: on an encoded board with the cell alive, the board stays encoded and exactly that cell dies |
| `Life.Board.RandomInit` | bpf_life.c:132-151 | the code as written, `set_cell(rand % 4096)` for each of the 400 draws: a cell is alive afterwards exactly when it was alive before or was drawn; an encoded board stays encoded when the draws hit distinct dead cells |
| `Life.Board.RandomInitChecked` | bpf_life.c:145-148 | corrected seeding: an encoded board stays encoded, and a cell is alive afterwards exactly when it was alive before or was drawn |
| `Life.Board.InitCellmap` | bpf_life.c:153-171 | the geometry becomes 64×64 with 4096 bytes, and the board is seeded by `random_init` as written. Afterwards the live cells are the old ones plus the drawn ones, `temp` is not touched, and the encoding is kept when the draws hit distinct dead cells |
| `Life.Board.CopyCellmap` | bpf_life.c:232-247 | `temp` receives the first `min(length_in_bytes, 4096)` cells, and the rest of it is unchanged |
| `Life.Board.NextGenerationX` | bpf_life.c:173-215 | one row's scan applies each cell's decision from `temp`, in order, and returns the offset of the next row |
| `Life.Board.NextGeneration` | bpf_life.c:219-230 | 64 row scans threading `cell_off` from 0 make the board the in-order sweep of the whole snapshot |
| `Life.RowEnd` | bpf_life.c:188-214 | a row scan moves the offset 64 cells on, stopping at 4096, and leaves it unchanged past the end |
| `Life.ScanReadsPastEnd` | bpf_life.c:189 | with the guard as written, a scan that reaches the end of the board reads `temp[4096]` |
| `Life.ScanReadsInBounds` | bpf_life.c:189 | with the corrected guard, every index read is inside `temp` |
| `Life.ScanReadsAgree` | bpf_life.c:188-197 | on scans that end inside the board (all those `next_generation` makes) both guards read exactly `off .. off+steps-1` |
| `Life.TcpOffset` | bpf_life.c:348-350 | `(ihl & 0x0f) * 4` is a multiple of 4 and at most 60 |
| `Life.TcpSource` | bpf_life.c:357 | the source-port field read into a little-endian `__u16`: first byte low, second byte high |
| `Life.ParseKickoff` | bpf_life.c:338-358 | the packet tests, made in the source's order with early returns, accept a packet exactly when it is a kick-off packet |
| `Life.Verdict` | bpf_life.c:334-366 | `bpf_life` returns 0 exactly when the game has not started and the packet has a non-zero IP version, protocol TCP (6) and a TCP source field that reads `0x71fe`; it returns 1 otherwise |
| `Life.StartsAtMostOnce` | bpf_life.c:334-361 | over any packet stream handled in order, one packet at a time, the game starts at most once, never after it has started, and on the first kick-off packet |
| `Life.Kernel.constructor` | bpf_life.c:254 | the program is loaded with `game_round` 0, `started` false, a zero board and an empty ring |
| `Life.Kernel.SendUpdate` | bpf_life.c:256-283 | when the reservation succeeds, one sample is appended, holding the first `min(length_in_bytes, 4096)` cells, the round and the dimensions; when it fails nothing changes |
| `Life.Kernel.DoGame` | bpf_life.c:285-301 | one tick: the round goes up by one modulo 2^32, the snapshot is taken, the board is swept and sent; on an encoded full-length board the new board is the next Life generation |
| `Life.Kernel.BpfLife` | bpf_life.c:327-367 | once, on the first kick-off packet: the game is marked started, the board is initialised and seeded as `random_init` is written, the whole board is sent, and 0 is returned. The board stays encoded when the draws hit distinct dead cells. Otherwise 1 is returned and nothing changes. `temp` is never touched |
| `Screen.Decimal` | main.go:55 | `%d` is one or more digits, starting with a digit; it is a single digit exactly below 10 |
| `Screen.ParseDecimalOfDecimal` | main.go:55 | `%d` is read back as the number |
| `Screen.Pad2` | main.go:37 | `%2d` is two characters for numbers below 100, and never shorter |
| `Screen.Pad2Reads` | main.go:37 | `%2d` with its padding dropped is read back as the number |
| `Screen.ReadGlyphsOfGlyphs` | main.go:46-50 | the glyph row can be read back into the alive bits it was drawn from |
| `Screen.LabelsLength` | main.go:36-38 | with at most 100 columns the label line is two characters per column |
| `Screen.LabelAt` | main.go:36-38 | label x is at characters 2x and 2x+1, above column x's glyph |
| `Screen.CellGlyph` | main.go:43-50 | on a board that fits, each cell's index is inside the array and its glyph is inverse video exactly when the cell is alive |
| `Screen.RenderIgnoresLength` | main.go:34-56 | `LengthInBytes` does not affect the rendered text |
| `Screen.CellIndex` | main.go:44 | `x + y*Width` in `uint32` arithmetic is the plain value when it fits |
| `Screen.PrintGlyphs` | main.go:43-51 | one row's glyphs, or a panic exactly when the row runs past cell 4095 |
| `Screen.PrintCells` | main.go:34-56 | it panics exactly when `Width*Height > 4096`; otherwise it prints the header, all rows and the trailer |
| `Consumer.FirstClosed` | main.go:63-68 | the index of the first `ErrClosed` result: none before it, and it is one (or the end) |
| `Consumer.EchoDraws` | main.go:62-79 | a read draws a frame exactly when it is a record that decodes, and the frame is of the decoded event |
| `Consumer.DrawnDelivered` | main.go:58-80 | the frames drawn are exactly the decoded events, in arrival order; read and decode errors draw nothing |
| `Consumer.ShowRecord` | main.go:72-78 | a record panics exactly when it decodes to an event that does not fit; otherwise it yields the frame or the decode-error log line |
| `Consumer.ReadLoop` | main.go:58-80 | it ends on the first `ErrClosed`, after one log line or frame per earlier result; it panics on the first delivered event that does not fit; with no `ErrClosed` it is left waiting |
| `Consumer.ReadLoopEnds` | main.go:58-80 | the loop panics exactly when an event that does not fit arrives before `ErrClosed`, and exits exactly when `ErrClosed` arrives with every earlier event fitting |
| `Setup.PortKeySwapsBytes` | main.go:112-114 | for a 16-bit port the key is the port with its two bytes exchanged |
| `Setup.PortKeyInvolution` | main.go:112-114 | swapping twice gives the port back |
| `Setup.KickoffPortKey` | main.go:139 | port 65137 becomes `0x71fe` |
| `Setup.SourceFieldIsPortKey` | bpf_life.c:357 | a packet from a port has a source field that reads as that port's key |
| `Setup.OnlyKickoffPort` | bpf_life.c:355-358 | exactly source port 65137 makes the field read `0x71fe` |
| `Setup.Split` | main.go:206 | `strings.Split(line, " ")` gives at least one field, and no field contains a space |
| `Setup.JoinSplit` | main.go:206 | joining the fields with single spaces gives the line back |
| `Setup.SplitJoin` | main.go:206 | space-free fields split back out of their join, empty fields included |
| `Setup.DetectCgroupPath` | main.go:196-213 | the open error is passed through. Otherwise it succeeds exactly when some line's third field is `cgroup2`, and then returns the second field of the first such line; if no line matches it fails with "cgroup2 not mounted" |

## Left out

- BPF helper calls that cannot fail in this model are not modelled.
  - `bpf_map_lookup_elem` on the one-entry array maps: the `-1` returns are unreachable.
  - `bpf_printk` and log output.
- The BPF timer (`game`, `bpf_timer_init`/`start`/`set_callback`, and the 2-second period) is not modelled. `Life.Kernel.DoGame` models one tick; how often the tick happens is not modelled.
- `bpf_get_prandom_u32` is an input: the 400 draws are the parameter `rands`.
- `bpf_ringbuf_reserve` is an input. It is the flag `reserveOk` plus `reserved`, the contents of the reserved memory before it is written.
- `bpf_skb_load_bytes` is modelled as the packet's byte sequence. A load fails exactly when the packet is shorter than the bytes requested.
- The IP header is read as its first byte (version and `ihl` nibbles) and its protocol byte.
- `Life.StartsAtMostOnce` and `Life.Kernel.BpfLife` take `bpf_life` calls one at a time. The program checks `started` at bpf_life.c:335 and sets it at bpf_life.c:361 with no synchronisation. An egress program can run on several CPUs at once, so two kick-off packets handled together can both pass the check. The game is then seeded twice (800 draws), and `send_update` and `game` run twice. The model does not capture this race.
- Concurrency is not modelled otherwise: timer callbacks against packet handling, and the signal goroutine closing the reader.
  - A close shows up as a `Closed` read result.
  - After the last result, the model stands for the loop blocked in `Read` (`Waiting`).
- The terminal is not modelled.
  - `Consumer.ShowRecord` records a frame as the event it draws; the frame's text is `Screen.Render` of that event, as `Screen.PrintCells` proves.
  - The text already printed when `printCells` panics is left unspecified.
- `readLoop` reuses one `event` variable across records. This is not modelled: a failed `binary.Read` is not drawn, so what it leaves in the variable is never seen.
- `portSetup`'s `Params.Put`, the cgroup attach, `perfSetup`, the memlock rlimit, object loading, flag parsing and `main` are not modelled. They are setup calls into the eBPF library and the operating system.
  - The kernel program shown compares the source port with the constant `0x71fe`. It does not read the port written to `Params`.
- In `detectCgroupPath`, opening `/proc/mounts` is the parameter `openError`, and the scanner's line splitting is the parameter `lines`. The scanner's token-size limit and read errors are not modelled.
- Host byte order is modelled as little-endian. The kernel writes the sample's `uint32` fields in host order, and the reader decodes with `binary.NativeEndian`. Both sides share one order, so `Event.DecodeSample` holds on a big-endian host too.
- `Life.ScanReadsAsWritten` is a trace of the offsets read, not a model of what an out-of-bounds read returns.
- `Life.Board.NextGenerationX` models the row scan with the corrected guard `cell_off >= 4096`. The source's `cell_off > 4096` differs only for a start offset from 4033 to 4096: the source then reads `temp[4096]` and returns 4097. `next_generation` never passes such an offset, since its scans start at multiples of 64 and end inside the board (`Life.ScanReadsAgree`). The out-of-bounds read itself is recorded by `Life.ScanReadsPastEnd`.
- `Life.RowEnd` gives 4096 for start offsets from 4033 to 4096, which is the corrected guard's result. The source returns 4097 there, for the same reason. No call that `next_generation` makes reaches those offsets.

## Findings

| source | as written | input that shows it | evidently intended | confidence | as-written member | corrected member |
|---|---|---|---|---|---|---|
| bpf_life.c:189 | the row scan skips a cell only when `cell_off > MAX_CELL_MAP_SIZE`, so `cell_off == 4096` passes the guard and `temp[4096]` is read, one past the end of the array | `next_generation_x(4033)`: its 64th iteration reads `temp[4096]` (`next_generation` itself only starts scans at multiples of 64 and never reaches it) | the guard `cell_off >= MAX_CELL_MAP_SIZE`, so every read is inside `temp` | not executed | `Life.ScanReadsPastEnd` | `Life.ScanReadsInBounds` |
| bpf_life.c:145-148 | `random_init` calls `set_cell` on every draw, even when the drawn cell is already alive, so its eight neighbours get counted twice | two equal draws, e.g. `rands` starting `[0, 0]` on an empty board: after the second `set_cell(0)` the neighbours of cell 0 report two live neighbours where there is one | set a drawn cell only when it is dead, so the board stays correctly encoded | not executed | `CellMap.SeedRepeatMiscounts` | `Life.Board.RandomInitChecked` |
