# misc_rust core, modelled in Dafny

This project models the sequential integer logic of the `misc_rust` repository and proves
properties about it.

- **Message framing codec** (`net_common`, `net_loopback`). A message is framed as a 4-byte
  magic header (`5E A7 00 01` for `Data`, `5E A7 00 02` for `Array`) followed by a checksummed
  postcard payload.
  - Module `NetCommon` models `Message::encode::<SZ>`, which writes into a fixed-capacity
    buffer, and `Message::decode`.
  - Module `NetLoopback` models the growable-vector `encode`.
  - Module `Postcard` is the serializer interface. The payload serializer and its CRC-32C
    digest (the iSCSI polynomial of section 12.1 of RFC 3720) are foreign code. They are a
    `Format`: any pair of functions. The round-trip property holds only where a lemma
    requires `RoundTrips`.
- **Bump allocator** (`SimpleAllocator::alloc`, the same code in `nucleo_postcard` and
  `nucleo_embassy`). Module `BumpAllocator` models it with `usize` as 32 bits. The mask
  `!(align - 1)` is real bit arithmetic on naturals, and pointers are offsets into the arena.
- **Tick clock** (`TimestampGen` of `nucleo_postcard`). Module `NucleoTimestamp` uses
  fixed-width newtypes, so every intermediate `u32`/`u64` value is checked for overflow.
- **Platforming game** (`platforming/src/lib.rs`). Module `Platforming` covers:
  - the MSB-first bit-packed tile map and collision lookup;
  - pixel drawing, and sprite drawing that copies only fully opaque pixels, into row-major
    ARGB buffers (`Sprite` is a class over an `array<bv32>`);
  - the RGBA→ARGB packing loop;
  - the character's hit points and invincibility frames (`Character` is a class).
- **2.5D viewer** (`two_point_five_d/src/main.rs`). Module `TwoPointFiveD` covers the scaled
  map view (`small_pixel`, `big_pixel`, the wall drawing loop), the wall-map initialisation,
  and the player's grid movement.
- **Shared modules.** `Grid` holds row-major index arithmetic. `Wrappers` holds
  `Option`/`Result`. `FixedWidth` holds Rust's `u8`/`u32`/`u64`/`i32`/`i64` ranges and
  `byte`. The tick clock keeps its own `u32`/`u64` newtypes, so that every intermediate
  result of its arithmetic is checked for overflow.

The model follows the code on three points where a reader might expect otherwise:
- The CRC covers only the payload, not the header.
- `decode` of fewer than 4 bytes panics on the header slice; there is no "truncated" error.
  `Decode` requires 4 bytes; `DecodeChecked` is the version that reports the short input (see
  Findings).
- No epoch or second/nanosecond arithmetic exists in the code, so none is modelled.

## Model

| member | source | states |
|---|---|---|
| Postcard.SerializeBounded | net_common/src/lib.rs:59 | a bounded serializer succeeds exactly when the unbounded one does and its output fits the capacity, and then returns the same bytes |
| NetCommon.Header | net_common/src/lib.rs:43-44 | headers are 4 bytes; `DATA` is used exactly for `Data`, `ARRAY` exactly for `Array` |
| NetCommon.FrameBounded | net_common/src/lib.rs:47-76 | no successful bounded encoding is longer than the capacity `SZ`; `Error(())` always fails with `WontImplement` |
| NetCommon.FrameLayout | net_common/src/lib.rs:52-72 | a frame is the variant's magic header followed by exactly the payload bytes (length 4 + payload); `Error(())` gives `WontImplement`; a serializer error comes back unchanged |
| NetCommon.FrameBoundedAgrees | net_common/src/lib.rs:51-68 | the bounded encoding equals the unbounded frame when that fits `SZ`, and is `SerializeBufferFull` otherwise (this includes a capacity below 4, which fails during the header pushes) |
| NetCommon.Encode | net_common/src/lib.rs:47-76 | the header push loop with its early `SerializeBufferFull`, the `?` on the payload, and the append produce exactly `FrameBounded`, with overflow of the final append reported as `SerializeBufferFull` |
| NetCommon.EncodeAsWritten | net_common/src/lib.rs:47-76 | the code as written, with `extend`'s overflow panic as its precondition: under that precondition it produces `FrameBounded` |
| NetCommon.ExtendOverflows | net_common/src/lib.rs:59-67 | when the payload alone exactly fills a buffer of at least 4 bytes, the header pushes and the bounded serializer succeed but the `extend` cannot fit |
| NetCommon.ExtendOverflowWitness | net_common/src/lib.rs:61-67 | a concrete case that reaches the panic: an `Array` message, a 36-byte buffer, and a round-tripping 36-byte payload layout |
| NetCommon.Decode | net_common/src/lib.rs:78-96 | `Ok(Error)` exactly when the first 4 bytes are neither header; a `Data`/`Array` result comes from that header and from the payload deserializer applied to the remaining bytes; every `Err` is the deserializer's own error |
| NetCommon.DecodeFrame | net_common/src/lib.rs:52-92 | with round-tripping formats, decoding a frame followed by any trailing bytes gives back the encoded message |
| NetCommon.ShortDatagramWitness | net_common/src/lib.rs:82-83 | a non-empty 2-byte datagram, which a receiver passes on, has fewer than the 4 bytes `Decode` requires (the header slice panics); the checked decoder reports it as `DeserializeUnexpectedEnd` |
| NetCommon.DecodeChecked | net_common/src/lib.rs:78-96 | total decoding: fewer than 4 bytes give `DeserializeUnexpectedEnd`; `Ok(Error)` exactly when there are 4 bytes and neither header; `Data`/`Array` results come from their header and the payload deserializer |
| NetCommon.DecodeCheckedFrame | net_common/src/lib.rs:52-96 | with round-tripping formats, the checked decoder also gives back the encoded message from a frame followed by any trailing bytes |
| NetCommon.DecodeFrameBounded | net_common/src/lib.rs:47-92 | the same round trip for every successful bounded encoding |
| NetCommon.ForeignTraffic | net_common/src/lib.rs:83-94 | bytes that start with any other header decode successfully to the `Error` sentinel |
| NetLoopback.Encode | net_loopback/src/lib.rs:6-30 | the push loop and `append` give exactly the unbounded frame: header then payload, the serializer's error with no partial frame, and `WontImplement` for `Error(())` |
| NetLoopback.FramePrefix | net_loopback/src/lib.rs:10-22 | every frame is 4 bytes longer than its payload and starts with one of the two magic headers |
| NucleoTimestamp.TimestampSec | nucleo_postcard/src/lib.rs:91-93 | the whole seconds s satisfy s·1000 ≤ ticks < (s+1)·1000, that is, ticks / 1000 |
| NucleoTimestamp.TimestampSubsecMicros | nucleo_postcard/src/lib.rs:95-97 | the `u32` subtraction and multiplication do not overflow; the result is (ticks mod 1000)·1000, below 1 000 000 and a multiple of 1000 |
| NucleoTimestamp.Reconstruction | nucleo_postcard/src/lib.rs:91-97 | seconds·1 000 000 + microseconds = ticks·1000 exactly |
| BumpAllocator.MaskRoundsDown | nucleo_postcard/src/lib.rs:34-48 | for a power-of-two `align`, `r & !(align - 1)` on 32-bit `usize` is r rounded down to a multiple of `align` |
| BumpAllocator.Bump | nucleo_postcard/src/lib.rs:43-51 | the `fetch_update` closure refuses exactly when `size > remaining`; otherwise the new `remaining` is aligned, lies at least `size` below the old one, and wastes less than one alignment unit |
| BumpAllocator.SimpleAllocator.constructor | nucleo_postcard/src/lib.rs:70-73 | `remaining` starts at `ARENA_SIZE` with nothing handed out |
| BumpAllocator.SimpleAllocator.Alloc | nucleo_postcard/src/lib.rs:28-58 | (the same code is nucleo_embassy/src/lib.rs:43-73) null with the state unchanged when `align > 4096` or `size > remaining`; otherwise `remaining` becomes the masked value and is returned; `remaining` never increases; all blocks handed out stay aligned, inside the arena and pairwise disjoint |
| BumpAllocator.AllocTwice | nucleo_embassy/src/lib.rs:84-88 | two allocations from the fresh static allocator give disjoint blocks, the second below the first and both inside the arena; the first fails only if it exceeds the arena |
| Platforming.GetTileType | platforming/src/lib.rs:100-119 | 0 for a tile outside the map; inside, the result is 0 or the single bit `1 << (7 - i % 8)`, and it is nonzero exactly when bit i of the MSB-first bitmap is set (i = y·width + x) |
| Platforming.GetTileTypeLevelCoords | platforming/src/lib.rs:121-139 | nonzero exactly when the point is non-negative and the tile (x / tile width, y / tile height) is inside the map and a wall; tile sizes are truncated to `u32` as in the code |
| Platforming.Level.IsCollided | platforming/src/lib.rs:204-215 | a point collides exactly when it lies on a wall tile inside the level; nothing left of, above, right of or below the level collides |
| Platforming.DrawPixel | platforming/src/lib.rs:57-66 | an on-sprite point changes exactly the pixel y·width + x to the color; any other point changes nothing |
| Platforming.DrawSprite | platforming/src/lib.rs:69-97 | with its continue/break clipping, the loop gives exactly the reference `Blit`: the screen pixel under sprite pixel (sx, sy) takes it when its alpha byte is 0xff, and every other pixel is unchanged; no write falls outside the screen |
| Platforming.BlitShowsOpaquePixels | platforming/src/lib.rs:86-94 | every fully opaque sprite pixel that lands on the screen shows at its position; every screen pixel outside the sprite's rectangle keeps its value |
| Platforming.BlitTransparent | platforming/src/lib.rs:91-94 | a sprite with no fully opaque pixel leaves the screen unchanged |
| Platforming.BlitOffScreen | platforming/src/lib.rs:70-85 | a sprite placed wholly off the screen leaves it unchanged |
| Platforming.BlitIdempotent | platforming/src/lib.rs:69-97 | drawing the same sprite at the same place twice gives the same screen as drawing it once |
| Platforming.PackArgb | platforming/src/lib.rs:37-47 | one pixel per 4 input bytes; each pixel carries that group's red, green, blue and alpha bytes in its ARGB channels |
| Platforming.Character.constructor | platforming/src/lib.rs:270-284 | a new character has 16 hit points, an invincibility counter of 120, and is not on the ground |
| Platforming.Character.Damage | platforming/src/lib.rs:491-497 | only with the counter at 0: the hit points drop by the amount, the counter becomes 60, and the character leaves the ground; otherwise nothing changes |
| Platforming.Character.DamageTouching | platforming/src/lib.rs:467-484 | the loop over damage rectangles and test heights costs exactly one hit when any test point lies in any rectangle (if not invincible), and nothing otherwise |
| Platforming.Character.CountDown | platforming/src/lib.rs:486-488 | a positive counter goes down by one and a zero counter stays 0 |
| Platforming.Character.UpdateVitality | platforming/src/lib.rs:314-488 | the integer health part of one `update`: the four test heights are (k+1)·h/5 − 1 of the sprite height, and the new vitality is one `Frame` of the vitality model for the damage at those heights; the character leaves the ground exactly when a hit lands |
| Platforming.TestYOffsets | platforming/src/lib.rs:314-317 | four test heights, (k+1)·h/5 − 1 for k < 4, non-decreasing, each within [−1, h) |
| Platforming.HitAbsorbs | platforming/src/lib.rs:491-497 | a second hit right after a hit does nothing |
| Platforming.RunNeverHeals | platforming/src/lib.rs:486-497 | over n frames the hit points never rise and fall by at most n |
| Platforming.InvincibleWhileCounting | platforming/src/lib.rs:486-497 | while the counter lasts, no frame costs hit points, and the counter falls by one per frame |
| Platforming.OneHitPerWindow | platforming/src/lib.rs:486-497 | any window of at most 60 frames costs at most one hit point |
| Platforming.SpawnProtection | platforming/src/lib.rs:273-274 | a new character cannot be hurt during its first 120 frames |
| TwoPointFiveD.SmallPixel | two_point_five_d/src/main.rs:7-17 | writes exactly the element (yi·sc)·(w·sc) + xi·sc and nothing else |
| TwoPointFiveD.BigPixel | two_point_five_d/src/main.rs:19-33 | writes the color to every element of cell (xi, yi)'s sc × sc block and leaves every other element unchanged |
| TwoPointFiveD.BlockInBounds | two_point_five_d/src/main.rs:57-58 | for xi < w, yi < h and a buffer of w·sc·h·sc elements, every `big_pixel` index is in bounds |
| TwoPointFiveD.BlockCells | two_point_five_d/src/main.rs:27-30 | each of the sc × sc offsets (ox, oy) indexes a pixel of the cell's block |
| TwoPointFiveD.CornerIsFirst | two_point_five_d/src/main.rs:15 | the `small_pixel` target is the top-left pixel of the `big_pixel` block: it is in the block and has the smallest index in it |
| TwoPointFiveD.BlocksDisjoint | two_point_five_d/src/main.rs:29 | blocks of different cells share no element |
| TwoPointFiveD.DrawMapView | two_point_five_d/src/main.rs:131-143 | after the wall drawing loop, every pixel of every cell's block shows the wall color if the cell is nonzero and the floor color otherwise |
| TwoPointFiveD.InitMap | two_point_five_d/src/main.rs:39-55 | the fresh map holds 0xff exactly in rows 8 and h−8 and columns 4 and w−12, and 0 everywhere else |
| TwoPointFiveD.MoveStep | two_point_five_d/src/main.rs:105-124 | the player stays on the map and moves at most one cell per axis, only in a held direction; it ends where it started or on a cell whose value is 0, and a horizontal step enters an open cell of the starting row, so no wall corner is cut diagonally; a lone held direction whose neighbouring cell (in the row after the horizontal step, for up and down) is 0 moves the player into it; the `%=` wrap leaves in-range coordinates unchanged |
| TwoPointFiveD.Walk | two_point_five_d/src/main.rs:86-124 | starting from (w/4, h/4) on the initialised map, the player never stands in a wall and never leaves the room enclosed by the four wall lines |

## Left out

- Payload serialization and CRC-32C internals (postcard and crc crates) are foreign code. They
  are a `Format` parameter, and round-tripping is a hypothesis of the lemmas that need it.
- The `crc::Digest` argument is left out. Digest state is not modelled, and the checksum is
  part of the `Format`.
- `net_loopback`'s `TimeStamp` variant is the model's `Data` case of the generic
  `Message<D>`, and it gets the `DATA` header as in the code. The `TimeStamp` type itself is
  not shown in the repository.
- Epoch and offset arithmetic is not modelled. The `Epoch` and `TimeStamp` types are only used
  by binaries, not defined in the modelled code.
- `TimestampGen::init` is not modelled, because it reads a hardware counter. The tick count is
  an input.
- The embassy `TimestampGen` is not modelled, because it is a wrapper over the embassy
  `Instant` type, which is not part of this model.
- `now_f64` is left out because it is floating point.
- SNTP exchange, socket wrappers, the `time_sync` task and `NTP_WATCH` are left out: they are
  asynchronous I/O and concurrency.
- BumpAllocator.SimpleAllocator.Alloc: the atomic `fetch_update` is modelled as a sequential
  update. Interleaving with other cores or interrupts is not modelled.
- `dealloc` and `realloc` are left out because their bodies are `todo!()`.
- BumpAllocator.SimpleAllocator.Alloc: a `Layout` with a non-power-of-two alignment cannot
  exist, so `IsPowerOfTwo(align)` is a precondition.
- `png_to_sprite` and `Level::new` are left out because they do file and PNG decoding. Only
  their RGBA→ARGB loop is modelled (`PackArgb`).
- Platforming.PackArgb requires the byte count to be a multiple of 4. A shorter last chunk
  would make the `rgba[3]` index panic.
- `Level::draw` and `Level::update` are left out. The tile loop of `Level::draw` only combines
  `get_tile_type` and `draw_sprite`, which are both modelled; `Level::update` is empty.
- `Character::draw` is left out. Its blinking depends on the counter, and the per-point debug
  pixels are `draw_pixel` calls, which are modelled.
- `Character::update`'s walking, jumping, gravity, landing and head-bump logic is left out,
  because it works on `f64` positions and velocities. For the same reason, the knock-back of a
  hit (`damage` calls `jump(-4.0)`, which sets the vertical speed and nudges `y`) is modelled
  only as leaving the ground.
- Platforming.Character.DamageTouching: the test point's `x`, the `y` after `as i32`
  (truncated toward zero, saturating) and the test heights are inputs; `UpdateVitality`
  computes the heights with `TestYOffsets`.
  The `i32` additions `x0 + dwd`, `y0 + dht` and `y + offset` are unbounded integers, because
  the wrap-around in those sums is not modelled.
- Platforming.Character.Damage: `hit_points` is an unbounded integer. The `i32` underflow after
  about 2^31 hits is not modelled.
- Platforming.DrawSprite requires the sprite and the screen to be different buffers, which
  Rust's borrow rules guarantee.
- TwoPointFiveD.BigPixel requires `xi < map_width`. For larger `xi` the code would paint a block
  wrapped across rows, which no caller does.
- The two_point_five_d raycasting, the window and event loop, and the `count` printing are left
  out: they are floating point and I/O. The keys held in a frame are an input (`Keys`).
- The player marker drawn after the map view is a `BigPixel` call, which is modelled.
- Preconditions that stand for a panic or for the width of an integer type:
  `TileMapFits` (the bitmap index in range, and tile indices within `u32`); the nonzero
  truncated tile sizes of `GetTileTypeLevelCoords` and `Level.Valid` (division by zero);
  `Sprite.Valid`'s `width * height < 2^31` (the `as i32` casts); `TestYOffsets`'
  `sprite_height < 2^31` (the `as i32` cast); and the buffer bounds of `SmallPixel` and
  `BigPixel` (index out of range).
- bezier_circle_approximation and uom_quantity_example are left out: they are floating point
  and unit demonstrations.

## Findings

| source | as written | input that shows it | evidently intended | confidence | as-written member | corrected member |
|---|---|---|---|---|---|---|
| net_common/src/lib.rs:59-67 | the payload is serialized with capacity `SZ` of its own and then appended with `heapless::Vec::extend`, which panics when the items do not fit | `Array` message, `SZ = 36`, payload of 36 bytes: the 4 header pushes succeed, the serializer succeeds, and the append of 36 bytes into the 32 free slots panics | report `SerializeBufferFull` when header plus payload exceed `SZ` | not executed | NetCommon.ExtendOverflowWitness | NetCommon.Encode |
| net_common/src/lib.rs:82-83 | `decode` slices `msg_bytes[..4]` and unwraps, so it panics on fewer than 4 bytes; its own comment asks for an error instead | a 2-byte UDP datagram reaching `net_loopback/src/bin/timestamp_txrx.rs:98-102`, which checks only `num_bytes > 0` before decoding | return `DeserializeUnexpectedEnd` for a datagram shorter than the header | not executed | NetCommon.ShortDatagramWitness | NetCommon.DecodeChecked |
