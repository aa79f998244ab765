# PbrtDX core, modelled in Dafny

PbrtDX is a Direct3D 12 path tracer. Almost all of it is plumbing around a foreign
graphics API. Five small pieces of sequential logic sit inside that plumbing, and this
project models them and proves what they promise:

- **Alignment and shader-table arithmetic.** `Align(size, a)` rounds `size` up with the
  bit trick `(size + a - 1) & ~(a - 1)` on `size_t`. `ShaderTable` lays out fixed-stride
  records, and `UploadIterator<T>` walks a mapped upload buffer one stride at a time.
  The constants are the DirectX Raytracing shader-record alignment (32), the shader
  identifier size (32) and the constant-buffer placement alignment (256).
- **The descriptor bump allocator.** `DescriptorHeap::Allocate` hands out paired CPU/GPU
  handles one increment apart and fails with "No descriptors left" once the heap is full.
- **PLY face accumulation and the quad split.** `PlyFaceCallback` files each face under
  triangles or quads and rejects any other face. `LoadMeshFromPlyFile` then appends every
  quad `(a, b, c, d)` as the triangles `(a, b, c)` and `(a, c, d)` after the triangles.
- **Row-pitched texture staging.** `ImageLoader::LoadImage` copies `Height` rows of
  `width * 4` bytes into an upload buffer whose rows are `RowPitch` apart.
  `ResourceManager::LoadImage` does the same bottom-up, which flips the image vertically.
- **Fences, frames and barriers in `App`.**
  - Every fence owner creates its fence at 0 and signals 1, 2, 3, … in order.
  - `Render` records the value it signals in the frame slot it just drew.
  - It then waits only if the GPU has not reached the new back buffer's recorded value.
  - It moves the back buffer PRESENT → COPY_DEST → PRESENT and the film
    UNORDERED_ACCESS → COPY_SOURCE → UNORDERED_ACCESS around the copy.

How the model is built:

- **Integers.** `size_t`, `uint64_t` and `uint32_t` are integer subset types (`u64`,
  `u32`). Each place where the C++ arithmetic can wrap applies `Wrap64` or `Trunc32`
  explicitly. Bytes are `bv8`.
- **Buffers and state.**
  - A committed buffer is an `array<byte>`, zero-filled as the driver hands it out.
  - `memcpy` and `CopyBufferRegion` are `Memory.Memcpy`, specified by the pure
    `Memory.Overwritten`.
  - Objects whose fields the C++ updates in place are classes: `UploadIterator`,
    `ShaderTable`, `DescriptorHeap`, `Fence`, `ImageLoader`, `ResourceManager`,
    `FaceCallbackContext` and `App`. `ShaderTable`'s fields are set once by its
    constructor, and it has no invariant. Each of the others has a `Valid()` invariant,
    and every method keeps it.
- **Foreign calls are parameters.** These are the GPU's progress (the values
  `GetCompletedValue` returns and the value an event wait returns at), the swap chain's
  back-buffer index, device-supplied addresses and increment sizes, the footprint
  `GetCopyableFootprints` reports, decoded pixels, and rply's header elements, vertices
  and face lists.
- **rply's call order.** `DeliverVertices`, `DeliverFace` and `DeliverFaces` call the
  callbacks in the order `ply_read` does.
- **Failures.** A `throw` or a failing `assert` is a `Failure` result carrying the C++
  message, or the asserted condition.
- **GPU command lists.** A recorded list is a `seq<Command>`. `Renderer.Execute` runs it
  over a map of resource states, and rejects a transition whose before-state is not the
  resource's current state, or a copy whose resources are not in COPY_DEST / COPY_SOURCE.
- **`App.h` versus `App.cpp`.** `src/App.h` declares a newer revision (a second allocator,
  a `ShaderTable` struct, `m_pipeline`). Where the two differ, the model follows
  `src/App.cpp`. From `App.h` it takes only `Frame` and `NUM_FRAMES`.

Modules:

| file | module | covers |
|---|---|---|
| size_t.dfy | SizeT | `u64`, `u32`, `byte`, wrap-around, `Result` |
| alignment.dfy | Alignment | the three identical `Align` helpers and the D3D12 constants |
| memory.dfy | Memory | `memcpy` / `CopyBufferRegion` |
| upload_iterator.dfy | UploadIterators | `UploadIterator<T>` |
| shader_table.dfy | ShaderTables | `ShaderTable` |
| descriptor_heap.dfy | DescriptorHeaps | `DescriptorHeap` |
| texture_staging.dfy | TextureStaging | the staged upload-buffer layout shared by both loaders |
| fence.dfy | Fences | `ID3D12Fence` as the CPU sees it, and the polling loop |
| image_loader.dfy | ImageLoaders | `ImageLoader` |
| resource_manager.dfy | ResourceManagers | `ResourceManager` |
| mesh.dfy | PlyMesh | `LoadMeshFromPlyFile` and its callbacks |
| app.dfy | Renderer | `App`: fence, frames, barriers, descriptors, shader tables |

## Model

| member | source | states |
|---|---|---|
| SizeT.Wrap64 | src/ResourceManager.h:33-34 | an unsigned 64-bit sum is the exact sum when it fits, and always congruent to it modulo 2^64 |
| SizeT.Trunc32 | src/ResourceManager.h:161-164 | `static_cast<uint32_t>` keeps a value below 2^32 and is congruent to its input modulo 2^32 |
| Alignment.ClearLowBits | src/ResourceManager.h:86 | `x & ~(a - 1)` for a power-of-two `a` is at most `x`, a multiple of `a`, and less than `a` below `x` |
| Alignment.Align | src/ResourceManager.h:85-87 | the result is a multiple of the alignment; when `size + alignment` fits in `size_t` it is at least `size` and less than `size + alignment` |
| Alignment.AlignIsSmallest | src/App.cpp:520-522 | no multiple of the alignment at or above `size` is smaller than `Align(size, alignment)` |
| Alignment.AlignKeepsAligned | src/ResourceManager.h:195-197 | an already aligned size is returned unchanged |
| Alignment.AlignWrapsToZero | src/ResourceManager.h:85-87 | when `size + alignment - 1` overflows `size_t`, Align returns 0, which is below `size` |
| Alignment.MaskClearsLowBits32 | src/ResourceManager.h:196 | on a 64-bit value, the literal mask `~(32 - 1)` rounds down to a multiple of 32 |
| Alignment.MaskClearsLowBits256 | src/ResourceManager.h:86 | on a 64-bit value, the literal mask `~(256 - 1)` rounds down to a multiple of 256 |
| Alignment.ClearLowBitsIsFloor | src/ResourceManager.h:86 | the rounding `Align` applies is `x - x % a`, the same value the two mask lemmas give for the 64-bit masks |
| Alignment.ConstantsArePowersOfTwo | src/ResourceManager.h:93 | the shader-record alignment (32) and the constant-buffer placement alignment (256) are powers of two |
| Memory.OverwrittenIsSplice | src/ResourceManager.cpp:203 | after a copy, the destination is its prefix, then exactly the source block, then its suffix |
| Memory.OverwrittenAt | src/App.cpp:713 | a byte inside the destination range comes from the matching source byte; a byte outside it is unchanged |
| Memory.OverwrittenWhole | src/ResourceManager.h:79-80 | copying a whole span from offset 0 over a buffer of its size leaves the buffer equal to the span |
| Memory.Memcpy | src/ImageLoader.cpp:105 | the destination array afterwards is `Overwritten` of its old contents by the source block |
| UploadIterators.UploadIterator.constructor | src/ResourceManager.h:15-19 | a new iterator is at offset 0, its pointer is the mapped address, and it has the given stride |
| UploadIterators.UploadIterator.WithRecordStride | src/ResourceManager.h:15-16 | with the default argument the stride is `sizeof(T)` |
| UploadIterators.UploadIterator.Current | src/ResourceManager.h:26-29 | `operator->` is the mapped address plus one stride per advance, modulo 2^64 |
| UploadIterators.UploadIterator.Advance | src/ResourceManager.h:31-37 | `operator++` adds exactly one stride to both offset and pointer, with no bounds check, and keeps the k-strides invariant |
| UploadIterators.UploadIterator.GetGpuAddress | src/ResourceManager.h:39-42 | after k advances the GPU address is the buffer's address plus `k * stride`, modulo 2^64 |
| ShaderTables.RecordStrideFitsRecord | src/ResourceManager.h:171-177 | the stride `Create<T>` picks is at least `sizeof(T)`, less than `sizeof(T) + 32`, and a multiple of 32 |
| ShaderTables.ShaderTable.constructor | src/ResourceManager.h:180-193 | the table keeps the stride, `m_size = numRecords * stride` and a buffer of `m_size * m_stride` bytes, all wrapping like `size_t` |
| ShaderTables.ShaderTable.Create | src/ResourceManager.h:171-177 | `Create<T>` builds the table with the record stride of `sizeof(T)` |
| ShaderTables.ShaderTable.GetSize | src/ResourceManager.h:161-164 | the size narrowed to 32 bits: equal when it fits, congruent modulo 2^32 otherwise |
| ShaderTables.ShaderTable.GetStride | src/ResourceManager.h:166-169 | the stride narrowed to 32 bits: equal when it fits, congruent modulo 2^32 otherwise |
| ShaderTables.ShaderTable.GetUploadIterator | src/ResourceManager.h:150-154 | the iterator's write pointer starts at the mapped address passed in, at offset 0, so the first record is written at the start of the table's buffer; it advances by the table's stride and reports the table's GPU address |
| ShaderTables.RecordInsideAllocation | src/ResourceManager.h:183-186 | with stride at least 1 and no overflow, record `i < numRecords` ends inside the `m_size * m_stride`-byte buffer |
| DescriptorHeaps.HandleAtNext | src/ResourceManager.cpp:257-258 | bumping slot k's handle by one increment gives slot k + 1's handle |
| DescriptorHeaps.HandlesDistinct | src/ResourceManager.cpp:250-263 | in a heap below 2^64, handles of distinct slots are distinct and ordered, so no descriptor is handed out twice |
| DescriptorHeaps.DescriptorHeap.constructor | src/ResourceManager.cpp:238-248 | the heap stores the increment size and `NumDescriptors`, and starts at the heap-start handles with nothing allocated |
| DescriptorHeaps.DescriptorHeap.Allocate | src/ResourceManager.cpp:250-263 | fails with "No descriptors left" exactly when the heap is full, changing nothing; otherwise returns the k-th slot's handle pair, advances both handles by one increment and counts one more, never exceeding the capacity |
| TextureStaging.RowBytes | src/ImageLoader.cpp:105 | `bitmapWidth * 4` in `uint32_t` is `4 * width` below 2^30 and congruent to it modulo 2^32 |
| TextureStaging.SourceRow | src/ResourceManager.cpp:137 | the flipped copy reads bitmap row `Height - i - 1`; the plain copy reads row `i` |
| TextureStaging.RowOffsetIsProduct | src/ImageLoader.cpp:107-108 | advancing a pointer by a width once per row reaches `row * width` |
| TextureStaging.EarlierRowEndsBefore | src/ImageLoader.cpp:107-108 | a row ends no later than any later row starts, so the row copies do not overlap |
| TextureStaging.RowInsideUpload | src/ImageLoader.cpp:103-107 | every row's payload lies inside the upload buffer |
| TextureStaging.BitmapRowInside | src/ResourceManager.cpp:137-138 | every bitmap row read lies inside the packed bitmap |
| TextureStaging.Staged | src/ImageLoader.cpp:103-109 | staging rows never changes the buffer's length |
| TextureStaging.StagedStep | src/ImageLoader.cpp:103-109 | staging one more row is one more in-bounds copy of its source row at its row offset |
| TextureStaging.StagedRowHoldsBitmapRow | src/ResourceManager.cpp:134-139 | byte j of upload row i, at `i * RowPitch + j`, is byte j of bitmap row `SourceRow(i)` |
| TextureStaging.StagedPaddingUntouched | src/ImageLoader.cpp:105 | the bytes between `width * 4` and `RowPitch` in a row are never written |
| TextureStaging.StagedBeyondRowsUntouched | src/ImageLoader.cpp:103-109 | nothing at or after the start of the first uncopied row is written |
| TextureStaging.StagedRowHolds | src/ResourceManager.cpp:136-138 | a copied row holds its whole bitmap row, byte for byte |
| TextureStaging.StagedRowBytes | src/ResourceManager.cpp:136-138 | every payload byte of a copied row equals the matching byte of its source row |
| TextureStaging.StagedPaddingKept | src/ResourceManager.cpp:136-138 | a row's padding keeps its old bytes however many rows are copied |
| TextureStaging.StagedLayout | src/ImageLoader.cpp:103-109 | after all `Height` rows, every row holds its bitmap row and every row's padding is as before |
| Fences.Counting | src/ResourceManager.cpp:228-229 | the values `lo, …, hi - 1` number `hi - lo` |
| Fences.CountingValues | src/ResourceManager.cpp:226-231 | the signalled values are `lo + i` in position i, strictly increasing, and exactly the values in `[lo, hi)` |
| Fences.CountingNext | src/ResourceManager.cpp:228-231 | signalling the counter and then bumping it extends the signalled values by the old counter |
| Fences.Fence.constructor | src/App.cpp:120-121 | a new fence is completed at its initial value and has no signals |
| Fences.Fence.Signal | src/App.cpp:679 | a signal is appended after the submitted work; the completed value is unchanged |
| Fences.Fence.Observe | src/ImageLoader.cpp:144 | `GetCompletedValue` returns a reading between the last completed value and the latest signal, and completion moves there |
| Fences.Fence.WaitFor | src/App.cpp:737-739 | the event wait returns once the completed value is at least the awaited value |
| Fences.PollUntilReached | src/ImageLoader.cpp:144-147 | the polling loop stops at the first reading that reaches the value; every earlier reading was below it |
| ImageLoaders.CopyRows | src/ImageLoader.cpp:103-109 | the pointer-bumping loop leaves the upload buffer equal to the unflipped `Staged` layout of all `Height` rows |
| ImageLoaders.ImageLoader.constructor | src/ImageLoader.cpp:24-26 | the fence is created at 0 and `m_fenceValue` becomes 1 |
| ImageLoaders.ImageLoader.LoadImage | src/ImageLoader.cpp:32-152 | a non-24bppBGR / 32bppBGRA source, then an unconvertible one, fails with nothing changed; otherwise the buffer holds the unflipped layout, `m_fenceValue` was signalled and reached, and it is one larger |
| ResourceManagers.CopyRowsFlipped | src/ResourceManager.cpp:134-139 | the upload buffer ends as the flipped `Staged` layout: row i holds bitmap row `Height - i - 1` |
| ResourceManagers.ConstantBufferHoldsRecord | src/ResourceManager.h:89-93 | the constant buffer holds `sizeof(T)` bytes, is a multiple of 256 and wastes less than 256 bytes |
| ResourceManagers.ResourceManager.constructor | src/ResourceManager.cpp:24-26 | the fence is created at 0 and `m_fenceValue` becomes 1 |
| ResourceManagers.ResourceManager.CreateBuffer | src/ResourceManager.cpp:34-47 | a new buffer of exactly `size` bytes |
| ResourceManagers.ResourceManager.CreateUploadBuffer | src/ResourceManager.cpp:49-62 | a new upload buffer of exactly `size` bytes |
| ResourceManagers.ResourceManager.CreateUploadBufferAndMap | src/ResourceManager.h:89-98 | the buffer is `Align(sizeof(T), 256)` bytes |
| ResourceManagers.ResourceManager.WaitForGpu | src/ResourceManager.cpp:226-236 | signals the pre-call `m_fenceValue`, leaves it one larger, and returns once the GPU has reached it |
| ResourceManagers.ResourceManager.UploadBufferRegion | src/ResourceManager.cpp:210-224 | the first `srcSize` source bytes land at `dstOffset` and nothing else in the destination changes; then WaitForGpu |
| ResourceManagers.ResourceManager.UploadToBuffer | src/ResourceManager.cpp:184-208 | exactly `srcData.size()` bytes are staged and land at `dstOffset`; one signal is added, and the GPU has completed it on return |
| ResourceManagers.ResourceManager.CreateBufferAndUpload | src/ResourceManager.h:74-83 | the buffer is exactly the data's byte size and holds exactly the data afterwards, and the GPU has finished the copy on return |
| ResourceManagers.ResourceManager.LoadImage | src/ResourceManager.cpp:64-182 | an unconvertible source fails with nothing changed; otherwise the buffer holds the flipped layout, `m_fenceValue` was signalled and reached, and it is one larger |
| PlyMesh.LastCountIsLastMatch | src/Mesh.cpp:96-106 | the header walk's count is 0 when no element has the name, and otherwise the last such element's count |
| PlyMesh.CountElements | src/Mesh.cpp:93-106 | the loop leaves `vertexCount` and `faceCount` at the last "vertex" and "face" counts |
| PlyMesh.SlotsDistinct | src/Mesh.cpp:23-25 | slot `index * 3 + offset` lies inside a buffer of 3 floats per vertex, and distinct (vertex, coordinate) pairs get distinct slots |
| PlyMesh.VertexCallback | src/Mesh.cpp:12-28 | the callback stores the value at `index * 3 + offset` and nothing else |
| PlyMesh.Flatten | src/Mesh.cpp:111-115 | three floats per vertex |
| PlyMesh.DeliverVertices | src/Mesh.cpp:111-115 | after x, y, z of every vertex, Positions holds every vertex's coordinates in order |
| PlyMesh.WholeFaces | src/Mesh.cpp:57-71 | the triangle list's length is a multiple of 3 and the quad list's a multiple of 4 |
| PlyMesh.FiledIndicesComeFromFaces | src/Mesh.cpp:55-71 | every filed index is an index of some face |
| PlyMesh.FaceCallbackContext.constructor | src/Mesh.cpp:120 | a zeroed face and two empty lists |
| PlyMesh.FaceCallbackContext.FaceCallback | src/Mesh.cpp:37-79 | a length other than 3 or 4 fails with "Only triangles and quads supported." and changes nothing; the length callback stores nothing; an index is stored at `Face[index]`; the last index files the face under triangles or quads; the "Invalid face length." branch is unreachable |
| PlyMesh.DeliverFace | src/Mesh.cpp:47-71 | a face succeeds exactly when it has 3 or 4 indices, and is then appended whole, in order, to the matching list |
| PlyMesh.FacesPrefixStep | src/Mesh.cpp:57-71 | one more face extends the triangle or quad list by exactly that face |
| PlyMesh.DeliverFaces | src/Mesh.cpp:124-133 | reading the faces succeeds exactly when every face is a triangle or a quad, and then the lists are the triangle and quad indices in file order |
| PlyMesh.SplitQuadsLength | src/Mesh.cpp:140-151 | the split produces six indices per quad |
| PlyMesh.SplitQuadsAt | src/Mesh.cpp:142-151 | quad `(a, b, c, d)` number k becomes output indices `6k … 6k + 5` = `a, b, c, a, c, d` |
| PlyMesh.SplitQuadsUsesQuadIndices | src/Mesh.cpp:144-150 | the split introduces no index that is not a quad index |
| PlyMesh.AppendSplitQuads | src/Mesh.cpp:135-152 | the loop leaves Indices as the triangle indices followed by the split quads |
| PlyMesh.IndicesFromFaces | src/Mesh.cpp:135-151 | `|Indices| = |TriIndices| + 6 * (|QuadIndices| / 4)`, a multiple of 3, and every output index obeys any bound the face indices obey |
| PlyMesh.SetReadCallbackFindsFirst | src/Mesh.cpp:113-130 | registering a read callback finds the first element with the requested name: it yields that element's instance count when the element has the property, and 0 when the property is missing or no element has the name |
| PlyMesh.LoadMeshFromPlyFile | src/Mesh.cpp:81-153 | the failures come in source order, each only once the earlier checks have passed: "No face or vertex elements found.", "Could not find vertex data." (x, y or z missing), "Could not find vertex indices.", "Face indices not supported.", "Only triangles and quads supported.", "Could not read ply file.". The load succeeds exactly when the header is accepted, every face is a triangle or quad and the read succeeds, and the mesh is then the vertices in order followed by the triangles and the split quads |
| Renderer.TransitionPair | src/App.cpp:635-649 | a two-transition barrier on two resources succeeds exactly when both before-states match, and then moves both to their after-states |
| Renderer.RenderCommandsRoundTrip | src/App.cpp:632-670 | a frame's list runs exactly when the back buffer is PRESENT and the film UNORDERED_ACCESS; the copy sees COPY_DEST / COPY_SOURCE, and both resources end where they started |
| Renderer.IdentifierTableSize | src/App.cpp:529-535 | `Align(D3D12_SHADER_IDENTIFIER_SIZE_IN_BYTES, 32)` is the identifier size, 32 |
| Renderer.App.constructor | src/App.cpp:120-122 | the fence is created at 0, `m_fenceValue` is 1, both frame slots hold 0, and every resource is idle |
| Renderer.App.WaitForGpu | src/App.cpp:730-740 | signals the pre-call `m_fenceValue`, increments it by one, returns once the GPU has reached it, and leaves the frames alone |
| Renderer.App.UploadToBuffer | src/App.cpp:695-728 | `size` bytes land at offset 0 of the buffer through one CopyBufferRegion, then WaitForGpu |
| Renderer.App.RecordFrame | src/App.cpp:596-675 | the list recorded and executed is the frame's dispatch, barriers and copy, and it leaves every resource state as it was |
| Renderer.App.RecordAndPresent | src/App.cpp:677-692 | the value signalled is stored in the slot just drawn and exceeds every earlier recorded value; `m_fenceValue` grows by one; the CPU waits exactly when the new current slot's value is not yet completed, and on return it is |
| Renderer.App.Render | src/App.cpp:594-692 | as RecordAndPresent, and the shared allocator is reset while the GPU may still use it exactly when the completed value is below the last list's signal |
| Renderer.App.RenderWithFrameAllocators | src/App.cpp:109-113 | with each frame's own allocator, the reset never overlaps GPU work: the invariant keeps each frame allocator's last use at or below its frame's recorded fence value, and the list just recorded marks the drawn frame's allocator with the value signalled for it |
| Renderer.App.CreateDescriptors | src/App.cpp:455-518 | the film UAV takes the heap start, the texture SRV one increment later, and the sampler the sampler heap's start; the fence, frames, allocators, resource states and shader tables are left alone, and `Valid()` is kept |
| Renderer.App.CreateShaderTables | src/App.cpp:524-592 | each of the three tables holds exactly its 32-byte shader identifier; the fence, frames, allocators, resource states and descriptor handles are left alone, and `Valid()` is kept |
| Renderer.CreateShaderTableBuffer | src/App.cpp:531-540 | each table's buffer is `Align(32, 32)` = 32 bytes |
| Renderer.NewShaderTable | src/App.cpp:531-550 | the mapped table holds exactly the identifier at offset 0 |
| Renderer.BackToBackFramesResetInFlight | src/App.cpp:596-597 | two back-to-back frames, with the GPU having completed nothing, reset the shared allocator while the first frame's list is in flight |
| Renderer.DescriptorSlotsDistinct | src/App.cpp:467-490 | the film UAV is at the heap start and the texture SRV exactly one increment later, in distinct slots |

## Left out

- Device, queue, swap-chain, root-signature and pipeline creation, and the acceleration
  structures. These only fill structures for the driver.
- WIC decoding and format conversion, `GetCopyableFootprints`, and rply's file opening,
  header parsing and reading. Their outputs are parameters.
- The float values of vertices, and the `double`-to-`uint32_t` cast of face indices. A
  vertex coordinate is an opaque 32-bit value and a face index arrives as a `u32`.
- `CopyTextureRegion`: the model stops at the staged upload buffer that it reads.
- Real GPU waits and concurrency. `SetEventOnCompletion`, `WaitForSingleObjectEx` and the
  sleep loop become a completed value supplied as a parameter.
- Fences.PollUntilReached: requires that some reading reaches the value. A GPU that never
  gets there would make the C++ loop spin forever, which the model does not represent.
- Fence values are unbounded naturals rather than `uint64_t`. Reaching 2^64 signals is
  out of reach.
- TextureStaging.Fits: bounds the bitmap and upload offsets, so the pointer bumps never
  wrap. The flipped row is read at `srcRow * RowBytes(width)`. The C++ computes that
  offset in `size_t` as `(Height - i - 1) * bitmapWidth * 4`, and the two agree while
  `4 * bitmapWidth < 2^32`. That always holds for a WIC bitmap, because its buffer size
  is a `uint32_t` and holds at least one row. The `uint32_t` wrap of the row length
  `bitmapWidth * 4` is modelled by `RowBytes`.
- rply's `ply_set_read_cb` is taken to look up the first element with the requested
  name and return its instance count, or 0 when that element or the property is
  missing. rply is not part of this model.
- PlyMesh.LoadMeshFromPlyFile: requires as many delivered vertices as the last "vertex"
  element declares, because `Positions` is sized by that count. A header that repeats an
  element name is assumed away. There the C++ sizes `Positions` by the last "vertex"
  element, while rply delivers the first one's vertices, and a larger first count writes
  past the vector.
- Alignment.MaskClearsLowBits32 and MaskClearsLowBits256 state the mask identity on
  `bv64`, and ClearLowBitsIsFloor states the same `x - x % a` on `nat`. The conversion
  between the two is not proved.
- PlyMesh.LoadMeshFromPlyFile: on a failure after the element counts, the C++ has
  already resized `mesh->Positions`. The model returns only the error.
- Map/Unmap. A mapped pointer is the buffer's array and its address is a parameter.
- ShaderTables.ShaderTable.GetGpuAddress: returns the stored address and carries no
  contract, because the driver supplies that address.
- Renderer.App.UploadToBuffer: resets the shared allocator too. The model tracks that
  reset only through the allocator's last use and does not flag it. Set-up runs it before
  any frame, after a full wait.
- `App::Render` binds the root signature, descriptor heaps, root views and pipeline
  state, and fills the dispatch description. None of these change a tracked state, so
  only the dispatch, barriers and copy are recorded.
- `Present` and the swap chain's choice of the next back buffer. The index is a
  parameter.
- The window, the message loop and the glm transform in `App::LoadMeshData`.

## Findings

| source | as written | input that shows it | evidently intended | confidence | as-written member | corrected member |
|---|---|---|---|---|---|---|
| src/App.cpp:596-597 | `Render` resets the single shared `m_cmdAllocator` every frame. The wait at the end of the previous `Render` only covers the new back buffer's previous frame, so the list submitted just before may still be executing when the allocator is reset, which `ID3D12CommandAllocator::Reset` forbids. The per-frame allocators created at src/App.cpp:109-113 are never used. | two `Render` calls in a row on a fresh `App`; the swap chain reports back buffer 1 and then 0, and the GPU's completed value stays 0 | reset `m_frames[m_currentFrame].CmdAllocator`, whose last list the previous `Render` has already waited for | not executed | Renderer.BackToBackFramesResetInFlight | Renderer.App.RenderWithFrameAllocators |
