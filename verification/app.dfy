/** App: the renderer's per-frame loop and the set-up that fixes its resource layout.

    Each Render records ray dispatch into the film, copies the film into the current
    back buffer between two pairs of transition barriers, submits, signals the frame's
    fence value, records it in the frame slot, moves to the swap chain's new back buffer
    and waits only if the GPU has not yet finished that buffer's last frame.

    The GPU's progress (GetCompletedValue, the value an event wait returns at) and the
    swap chain's back-buffer index are parameters. What the command queue does with a
    recorded list is Execute: the resource-state machine of transition barriers, which
    rejects a barrier whose before-state is not the resource's current state and a copy
    whose resources are not in COPY_DEST / COPY_SOURCE. */
module Renderer {
  import opened SizeT
  import opened Alignment
  import opened Memory
  import opened Fences
  import opened DescriptorHeaps

  /** App::NUM_FRAMES: the swap chain's buffer count. */
  const NUM_FRAMES: nat := 2

  /** The D3D12_RESOURCE_STATES the app's resources pass through. */
  datatype ResourceState = Present | CopyDest | CopySource | UnorderedAccess

  /** The resources whose states Render changes: the swap chain's buffers and the film. */
  datatype Resource = BackBuffer(index: nat) | Film

  /** D3D12_RESOURCE_BARRIER of type TRANSITION over all subresources. */
  datatype Barrier = Transition(resource: Resource, before: ResourceState, after: ResourceState)

  /** The commands recorded on m_cmdList that touch tracked resources. */
  datatype Command =
    | DispatchRays
    | ResourceBarrier(barriers: seq<Barrier>)
    | CopyResource(dst: Resource, src: Resource)
    | CopyBufferRegion

  /** App::Frame: the fence value whose completion frees the frame's back buffer. */
  datatype Frame = Frame(fenceWaitValue: nat)

  type States = map<Resource, ResourceState>

  /** ResourceBarrier: each transition in turn; its before-state must be the current one. */
  function ApplyBarriers(states: States, barriers: seq<Barrier>): Result<States>
    decreases |barriers|
  {
    if |barriers| == 0 then Success(states)
    else
      var b := barriers[0];
      if b.resource in states && states[b.resource] == b.before then
        ApplyBarriers(states[b.resource := b.after], barriers[1..])
      else
        Failure("barrier StateBefore does not match the resource's state")
  }

  /** One command on the GPU timeline. The ray-generation shader writes the film through
      its UAV, so the film must be in UNORDERED_ACCESS; CopyResource needs its destination
      in COPY_DEST and its source in COPY_SOURCE. Buffer copies touch no tracked resource. */
  function Step(states: States, command: Command): Result<States>
  {
    match command
    case DispatchRays =>
      if Film in states && states[Film] == UnorderedAccess then Success(states)
      else Failure("film is not in UNORDERED_ACCESS")
    case ResourceBarrier(barriers) =>
      ApplyBarriers(states, barriers)
    case CopyResource(dst, src) =>
      if dst in states && src in states && states[dst] == CopyDest && states[src] == CopySource
      then Success(states)
      else Failure("copy resources are not in COPY_DEST / COPY_SOURCE")
    case CopyBufferRegion =>
      Success(states)
  }

  /** ExecuteCommandLists of one recorded list: the commands in order, stopping at the
      first invalid one. */
  function Execute(states: States, commands: seq<Command>): Result<States>
    decreases |commands|
  {
    if |commands| == 0 then Success(states)
    else
      match Step(states, commands[0])
      case Failure(e) => Failure(e)
      case Success(next) => Execute(next, commands[1..])
  }

  /** The list Render records for back buffer `frame`, App.cpp order. */
  function RenderCommands(frame: nat): seq<Command>
  {
    [ DispatchRays,
      ResourceBarrier([Transition(BackBuffer(frame), Present, CopyDest),
                       Transition(Film, UnorderedAccess, CopySource)]),
      CopyResource(BackBuffer(frame), Film),
      ResourceBarrier([Transition(BackBuffer(frame), CopyDest, Present),
                       Transition(Film, CopySource, UnorderedAccess)]) ]
  }

  /** Between frames: the back buffer is presentable and the film is writable. */
  predicate Idle(states: States, frame: nat)
  {
    BackBuffer(frame) in states && states[BackBuffer(frame)] == Present &&
    Film in states && states[Film] == UnorderedAccess
  }

  /** A ResourceBarrier call of two transitions on two different resources succeeds
      exactly when both resources are in their before-states, and then moves both to
      their after-states. */
  lemma TransitionPair(states: States, a: Resource, aBefore: ResourceState,
                       aAfter: ResourceState, b: Resource, bBefore: ResourceState,
                       bAfter: ResourceState)
    requires a != b && a in states && b in states
    ensures var pair := [Transition(a, aBefore, aAfter), Transition(b, bBefore, bAfter)];
            ApplyBarriers(states, pair).Success? <==> states[a] == aBefore && states[b] == bBefore
    ensures states[a] == aBefore && states[b] == bBefore ==>
              ApplyBarriers(states, [Transition(a, aBefore, aAfter),
                                     Transition(b, bBefore, bAfter)])
              == Success(states[a := aAfter][b := bAfter])
  {
    var barriers := [Transition(a, aBefore, aAfter), Transition(b, bBefore, bAfter)];
    assert barriers[1..][1..] == [];
    if states[a] == aBefore {
      var moved := states[a := aAfter];
      assert moved[b] == states[b];
      assert ApplyBarriers(states, barriers) == ApplyBarriers(moved, barriers[1..]);
      if states[b] == bBefore {
        assert ApplyBarriers(moved, barriers[1..]) == ApplyBarriers(moved[b := bAfter], []);
      }
    }
  }

  /** A frame's list runs without a mismatched barrier or copy exactly when the back
      buffer starts in PRESENT and the film in UNORDERED_ACCESS; the copy then sees the
      back buffer in COPY_DEST and the film in COPY_SOURCE, and the list leaves every
      state as it found it. */
  lemma RenderCommandsRoundTrip(states: States, frame: nat)
    requires BackBuffer(frame) in states && Film in states
    ensures Execute(states, RenderCommands(frame)).Success? <==> Idle(states, frame)
    ensures Idle(states, frame) ==>
              Execute(states, RenderCommands(frame)[..2])
                == Success(states[BackBuffer(frame) := CopyDest][Film := CopySource]) &&
              Execute(states, RenderCommands(frame)) == Success(states)
  {
    var bb := BackBuffer(frame);
    var cmds := RenderCommands(frame);
    var c1 := cmds[1..];
    var c2 := c1[1..];
    var c3 := c2[1..];
    assert c3[1..] == [];
    TransitionPair(states, bb, Present, CopyDest, Film, UnorderedAccess, CopySource);
    if Idle(states, frame) {
      var during := states[bb := CopyDest][Film := CopySource];
      TransitionPair(during, bb, CopyDest, Present, Film, CopySource, UnorderedAccess);
      assert during[bb := Present][Film := UnorderedAccess] == states;
      assert Execute(during, c3) == Success(states);
      assert Execute(during, c2) == Success(states);
      assert Execute(states, c1) == Success(states);
      var prefix := cmds[..2];
      assert prefix[1..][1..] == [];
      assert Execute(states, prefix[1..]) == Success(during);
    } else if states[Film] == UnorderedAccess {
      assert Execute(states, cmds) == Execute(states, c1);
    }
  }

  /** Every back buffer presentable and the film writable. */
  predicate AllIdle(states: States)
  {
    (forall i :: 0 <= i < NUM_FRAMES ==> Idle(states, i))
  }

  /** Align(D3D12_SHADER_IDENTIFIER_SIZE_IN_BYTES, 32): a shader identifier is already a
      whole shader record, so each shader table is exactly one identifier long. */
  lemma IdentifierTableSize(shaderIdSize: u64)
    requires shaderIdSize == SHADER_IDENTIFIER_SIZE_IN_BYTES
    ensures IsPowerOfTwo(SHADER_RECORD_BYTE_ALIGNMENT)
    ensures Align(shaderIdSize, SHADER_RECORD_BYTE_ALIGNMENT) == shaderIdSize
  {
    ConstantsArePowersOfTwo();
    var r := Align(shaderIdSize, SHADER_RECORD_BYTE_ALIGNMENT);
    assert 32 <= r < 64 && r % 32 == 0;
  }

  class App {
    /** m_fence, created on the direct queue. */
    const fence: Fence
    /** m_fenceValue: the next value to signal. */
    var fenceValue: nat
    /** m_frames[NUM_FRAMES]: the per-back-buffer records. */
    var frames: seq<Frame>
    /** m_currentFrame: the back buffer Render draws into next. */
    var currentFrame: nat
    /** The fence value signalled after the last list recorded from the shared
        m_cmdAllocator was submitted (0 before any): the allocator may be reset only once
        the GPU has reached it. */
    var allocatorLastUse: nat
    /** For each frame slot, the fence value signalled after the last list recorded from
        that frame's own CmdAllocator was submitted (0 before any). */
    var frameAllocatorLastUse: seq<nat>
    /** What m_cmdList has recorded since its last Reset. */
    var cmdList: seq<Command>
    /** The tracked resources' states once the submitted work has run. */
    var states: States

    /** m_filmUav, m_textureSrv, m_sampler: GPU descriptor handles. */
    var filmUav: u64
    var textureSrv: u64
    var sampler: u64

    /** The three single-record shader tables. */
    var rayGenShaderTable: array<byte>
    var hitGroupShaderTable: array<byte>
    var missShaderTable: array<byte>

    /** The fence protocol of every fence owner (created at 0; signals 1, 2, ...,
        fenceValue - 1 so far), every frame's recorded value and the shared allocator's
        last use already signalled, the current frame's last work finished, each frame's
        own allocator last used no later than the frame's recorded value, and every
        resource idle between frames. */
    ghost predicate Valid()
      reads this, fence
    {
      fence.Valid() && fence.initialValue == 0 &&
      1 <= fenceValue && fence.signals == Counting(1, fenceValue) &&
      fence.Latest() + 1 == fenceValue &&
      |frames| == NUM_FRAMES && currentFrame < NUM_FRAMES &&
      (forall i :: 0 <= i < NUM_FRAMES ==> frames[i].fenceWaitValue < fenceValue) &&
      frames[currentFrame].fenceWaitValue <= fence.completed &&
      allocatorLastUse < fenceValue &&
      |frameAllocatorLastUse| == NUM_FRAMES &&
      (forall i :: 0 <= i < NUM_FRAMES ==> frameAllocatorLastUse[i] <= frames[i].fenceWaitValue) &&
      AllIdle(states)
    }

    /** The parts of App(hwnd) the frame loop depends on: the swap chain's buffers start
        in PRESENT, CreateCmdList creates the fence at m_fenceValue = 0 and then bumps it
        to 1, and CreateRaytracingBuffers creates the film in UNORDERED_ACCESS. Every
        frame slot starts with FenceWaitValue 0 and m_currentFrame is 0. */
    constructor ()
      ensures Valid() && fresh(fence)
      ensures fenceValue == 1 && fence.completed == 0 && fence.signals == []
      ensures frames == [Frame(0), Frame(0)] && currentFrame == 0 && allocatorLastUse == 0
      ensures frameAllocatorLastUse == [0, 0]
      ensures states == map[BackBuffer(0) := Present, BackBuffer(1) := Present,
                            Film := UnorderedAccess]
    {
      var initial := 0;
      fence := new Fence(initial);
      fenceValue := initial + 1;
      frames := [Frame(0), Frame(0)];
      currentFrame := 0;
      allocatorLastUse := 0;
      frameAllocatorLastUse := [0, 0];
      cmdList := [];
      states := map[BackBuffer(0) := Present, BackBuffer(1) := Present,
                    Film := UnorderedAccess];
      rayGenShaderTable := new byte[0];
      hitGroupShaderTable := new byte[0];
      missShaderTable := new byte[0];
    }

    /** WaitForGpu(): signals the pre-call m_fenceValue, leaves m_fenceValue one larger,
        and returns once the GPU has reached the signalled value. */
    method WaitForGpu()
      requires Valid()
      modifies this, fence
      ensures Valid()
      ensures fenceValue == old(fenceValue) + 1
      ensures fence.signals == old(fence.signals) + [old(fenceValue)]
      ensures fence.completed == old(fenceValue)
      ensures states == old(states) && currentFrame == old(currentFrame)
      ensures frames == old(frames) && allocatorLastUse == old(allocatorLastUse)
      ensures frameAllocatorLastUse == old(frameAllocatorLastUse) && cmdList == old(cmdList)
    {
      var waitValue := fenceValue;
      CountingNext(1, fenceValue);
      fenceValue := fenceValue + 1;

      fence.Signal(waitValue);
      fence.WaitFor(waitValue, waitValue);
    }

    /** App::UploadToBuffer(buffer, data, size): stages the bytes, records one
        CopyBufferRegion of `size` bytes to offset 0, submits and waits for the GPU. */
    method UploadToBuffer(buffer: array<byte>, data: seq<byte>)
      requires Valid()
      requires |data| <= buffer.Length
      modifies this, fence, buffer
      ensures Valid()
      ensures buffer[..] == Overwritten(old(buffer[..]), 0, data, 0, |data|)
      ensures cmdList == [CopyBufferRegion]
      ensures fenceValue == old(fenceValue) + 1
      ensures fence.signals == old(fence.signals) + [old(fenceValue)]
      ensures fence.completed == old(fenceValue) && allocatorLastUse == old(fenceValue)
      ensures states == old(states) && currentFrame == old(currentFrame)
      ensures frames == old(frames) && frameAllocatorLastUse == old(frameAllocatorLastUse)
    {
      var uploadBuffer := new byte[|data|];
      Memcpy(uploadBuffer, 0, data, 0, |data|);
      assert uploadBuffer[..] == data;

      cmdList := [];
      cmdList := cmdList + [CopyBufferRegion];
      Memcpy(buffer, 0, uploadBuffer[..], 0, |data|);
      assert Execute(states, cmdList) == Success(states) by {
        assert cmdList[1..] == [];
      }
      states := Execute(states, cmdList).value;

      var submitted := fenceValue;
      WaitForGpu();
      allocatorLastUse := submitted;
    }

    /** The FenceWaitValue Render's last check compares against once the current slot
        has been given m_fenceValue: that of the back buffer the swap chain moves to. */
    function NextWaitValue(backBufferIndex: nat): nat
      reads this
      requires backBufferIndex < |frames|
    {
      if backBufferIndex == currentFrame then fenceValue else frames[backBufferIndex].fenceWaitValue
    }

    /** The recording half of Render(): the list for back buffer m_currentFrame, closed
        and executed. The resources come back to their between-frame states. */
    method RecordFrame()
      requires Valid()
      modifies this
      ensures Valid()
      ensures cmdList == RenderCommands(currentFrame) && states == old(states)
      ensures fenceValue == old(fenceValue) && frames == old(frames)
      ensures currentFrame == old(currentFrame) && allocatorLastUse == old(allocatorLastUse)
      ensures frameAllocatorLastUse == old(frameAllocatorLastUse)
    {
      cmdList := [];

      cmdList := cmdList + [DispatchRays];
      cmdList := cmdList + [ResourceBarrier([Transition(BackBuffer(currentFrame), Present, CopyDest),
                                             Transition(Film, UnorderedAccess, CopySource)])];
      cmdList := cmdList + [CopyResource(BackBuffer(currentFrame), Film)];
      cmdList := cmdList + [ResourceBarrier([Transition(BackBuffer(currentFrame), CopyDest, Present),
                                             Transition(Film, CopySource, UnorderedAccess)])];

      assert Idle(states, currentFrame);
      assert cmdList == RenderCommands(currentFrame);
      RenderCommandsRoundTrip(states, currentFrame);
      states := Execute(states, cmdList).value;
    }

    /** Render() after its allocator and list reset: records dispatch, barriers and copy
        into the back buffer of m_currentFrame; submits; signals m_fenceValue and records
        it as that frame's FenceWaitValue; bumps m_fenceValue; moves to the back buffer the
        swap chain names (`backBufferIndex`); and waits only if the completed value
        (`observed`) is below that frame's FenceWaitValue, returning at `reached`. Returns
        whether it waited. */
    method RecordAndPresent(backBufferIndex: nat, observed: nat, reached: nat)
      returns (waited: bool)
      requires Valid()
      requires backBufferIndex < NUM_FRAMES
      requires fence.completed <= observed <= reached <= fenceValue
      requires observed < NextWaitValue(backBufferIndex) ==> NextWaitValue(backBufferIndex) <= reached
      modifies this, fence
      ensures Valid()
      ensures cmdList == RenderCommands(old(currentFrame))
      ensures states == old(states) && allocatorLastUse == old(allocatorLastUse)
      ensures frameAllocatorLastUse == old(frameAllocatorLastUse)
      ensures fence.signals == old(fence.signals) + [old(fenceValue)]
      ensures fenceValue == old(fenceValue) + 1
      ensures frames[old(currentFrame)] == Frame(old(fenceValue))
      ensures forall i :: 0 <= i < NUM_FRAMES && i != old(currentFrame) ==>
                frames[i] == old(frames)[i]
      ensures forall i :: 0 <= i < NUM_FRAMES ==>
                old(frames)[i].fenceWaitValue < frames[old(currentFrame)].fenceWaitValue
      ensures currentFrame == backBufferIndex
      ensures waited <==> observed < frames[currentFrame].fenceWaitValue
      ensures frames[currentFrame].fenceWaitValue <= fence.completed
      ensures waited ==> fence.completed == reached
      ensures !waited ==> fence.completed == observed
    {
      RecordFrame();

      fence.Signal(fenceValue);

      frames := frames[currentFrame := Frame(fenceValue)];
      CountingNext(1, fenceValue);
      fenceValue := fenceValue + 1;

      currentFrame := backBufferIndex;

      var completed := fence.Observe(observed);
      if completed < frames[currentFrame].fenceWaitValue {
        fence.WaitFor(frames[currentFrame].fenceWaitValue, reached);
        waited := true;
      } else {
        waited := false;
      }
    }

    /** Render() as written: m_cmdAllocator->Reset(), then RecordAndPresent. The list
        just submitted was recorded from the same shared allocator, so its last use
        becomes the value signalled for it. `resetInFlight` reports whether the reset
        happened while the GPU may still be executing a list recorded from the allocator,
        which ID3D12CommandAllocator::Reset forbids. */
    method Render(backBufferIndex: nat, observed: nat, reached: nat)
      returns (waited: bool, resetInFlight: bool)
      requires Valid()
      requires backBufferIndex < NUM_FRAMES
      requires fence.completed <= observed <= reached <= fenceValue
      requires observed < NextWaitValue(backBufferIndex) ==> NextWaitValue(backBufferIndex) <= reached
      modifies this, fence
      ensures Valid()
      ensures resetInFlight <==> old(fence.completed) < old(allocatorLastUse)
      ensures allocatorLastUse == old(fenceValue)
      ensures frameAllocatorLastUse == old(frameAllocatorLastUse)
      ensures cmdList == RenderCommands(old(currentFrame)) && states == old(states)
      ensures fence.signals == old(fence.signals) + [old(fenceValue)]
      ensures fenceValue == old(fenceValue) + 1
      ensures frames[old(currentFrame)] == Frame(old(fenceValue))
      ensures forall i :: 0 <= i < NUM_FRAMES && i != old(currentFrame) ==>
                frames[i] == old(frames)[i]
      ensures currentFrame == backBufferIndex
      ensures waited <==> observed < frames[currentFrame].fenceWaitValue
      ensures frames[currentFrame].fenceWaitValue <= fence.completed
      ensures !waited ==> fence.completed == observed
    {
      resetInFlight := fence.completed < allocatorLastUse;
      var submitted := fenceValue;
      waited := RecordAndPresent(backBufferIndex, observed, reached);
      allocatorLastUse := submitted;
    }

    /** Render() with the per-frame allocators App::Frame already holds: the current
        frame's CmdAllocator is reset instead of the shared one, and the list recorded
        from it is the one whose signal becomes that frame's FenceWaitValue. The invariant
        keeps each frame allocator's last use at or below its frame's FenceWaitValue,
        which the previous Render (or the set-up) has already waited for, so the reset
        never overlaps GPU work. */
    method RenderWithFrameAllocators(backBufferIndex: nat, observed: nat, reached: nat)
      returns (waited: bool, resetInFlight: bool)
      requires Valid()
      requires backBufferIndex < NUM_FRAMES
      requires fence.completed <= observed <= reached <= fenceValue
      requires observed < NextWaitValue(backBufferIndex) ==> NextWaitValue(backBufferIndex) <= reached
      modifies this, fence
      ensures Valid()
      ensures !resetInFlight
      ensures frameAllocatorLastUse[old(currentFrame)] == old(fenceValue)
      ensures forall i :: 0 <= i < NUM_FRAMES && i != old(currentFrame) ==>
                frameAllocatorLastUse[i] == old(frameAllocatorLastUse)[i]
      ensures allocatorLastUse == old(allocatorLastUse)
      ensures cmdList == RenderCommands(old(currentFrame)) && states == old(states)
      ensures fence.signals == old(fence.signals) + [old(fenceValue)]
      ensures fenceValue == old(fenceValue) + 1
      ensures frames[old(currentFrame)] == Frame(old(fenceValue))
      ensures forall i :: 0 <= i < NUM_FRAMES && i != old(currentFrame) ==>
                frames[i] == old(frames)[i]
      ensures currentFrame == backBufferIndex
      ensures waited <==> observed < frames[currentFrame].fenceWaitValue
      ensures frames[currentFrame].fenceWaitValue <= fence.completed
    {
      resetInFlight := fence.completed < frameAllocatorLastUse[currentFrame];
      var recorded := currentFrame;
      var submitted := fenceValue;
      waited := RecordAndPresent(backBufferIndex, observed, reached);
      frameAllocatorLastUse := frameAllocatorLastUse[recorded := submitted];
    }

    /** CreateDescriptors(): in the 2-descriptor CBV/SRV/UAV heap, the film's UAV is
        created at the heap start and the texture's SRV one increment later; the GPU
        handles are kept as m_filmUav and m_textureSrv. The sampler goes at the start of
        the 1-descriptor sampler heap. Returns the CPU handles the two views were written
        to. */
    method CreateDescriptors(cpuStart: u64, gpuStart: u64, descriptorSize: u32,
                             samplerGpuStart: u64)
      returns (filmUavCpu: u64, textureSrvCpu: u64)
      requires Valid()
      modifies this
      ensures Valid()
      ensures filmUavCpu == HandleAt(cpuStart, 0, descriptorSize)
      ensures textureSrvCpu == HandleAt(cpuStart, 1, descriptorSize)
      ensures filmUav == HandleAt(gpuStart, 0, descriptorSize)
      ensures textureSrv == HandleAt(gpuStart, 1, descriptorSize)
      ensures sampler == samplerGpuStart
      ensures fenceValue == old(fenceValue) && currentFrame == old(currentFrame)
      ensures states == old(states) && cmdList == old(cmdList)
      ensures frames == old(frames) && allocatorLastUse == old(allocatorLastUse)
      ensures frameAllocatorLastUse == old(frameAllocatorLastUse)
      ensures rayGenShaderTable == old(rayGenShaderTable)
      ensures hitGroupShaderTable == old(hitGroupShaderTable)
      ensures missShaderTable == old(missShaderTable)
    {
      var cpuHandle := cpuStart;
      var gpuHandle := gpuStart;

      filmUavCpu := cpuHandle;
      filmUav := gpuHandle;

      HandleAtNext(cpuStart, 0, descriptorSize);
      HandleAtNext(gpuStart, 0, descriptorSize);
      cpuHandle := Wrap64(cpuHandle + descriptorSize);
      gpuHandle := Wrap64(gpuHandle + descriptorSize);

      textureSrvCpu := cpuHandle;
      textureSrv := gpuHandle;

      sampler := samplerGpuStart;
    }

    /** CreateShaderTables(): the ray-generation, hit-group and miss tables are each an
        upload buffer of Align(32, 32) bytes holding the one 32-byte identifier of its
        shader at offset 0. */
    method CreateShaderTables(rayGenId: seq<byte>, hitGroupId: seq<byte>, missId: seq<byte>)
      requires Valid()
      requires |rayGenId| == |hitGroupId| == |missId| == SHADER_IDENTIFIER_SIZE_IN_BYTES
      modifies this
      ensures Valid()
      ensures fresh(rayGenShaderTable) && fresh(hitGroupShaderTable) && fresh(missShaderTable)
      ensures rayGenShaderTable[..] == rayGenId
      ensures hitGroupShaderTable[..] == hitGroupId
      ensures missShaderTable[..] == missId
      ensures fenceValue == old(fenceValue) && currentFrame == old(currentFrame)
      ensures states == old(states) && cmdList == old(cmdList)
      ensures frames == old(frames) && allocatorLastUse == old(allocatorLastUse)
      ensures frameAllocatorLastUse == old(frameAllocatorLastUse)
      ensures filmUav == old(filmUav) && textureSrv == old(textureSrv) && sampler == old(sampler)
    {
      rayGenShaderTable := NewShaderTable(rayGenId);
      hitGroupShaderTable := NewShaderTable(hitGroupId);
      missShaderTable := NewShaderTable(missId);
    }
  }

  /** The committed upload buffer of one shader table:
      Align(D3D12_SHADER_IDENTIFIER_SIZE_IN_BYTES, 32) bytes. */
  method CreateShaderTableBuffer() returns (table: array<byte>)
    ensures fresh(table) && table.Length == SHADER_IDENTIFIER_SIZE_IN_BYTES
  {
    var shaderIdSize := SHADER_IDENTIFIER_SIZE_IN_BYTES;
    IdentifierTableSize(shaderIdSize);
    table := new byte[Align(shaderIdSize, SHADER_RECORD_BYTE_ALIGNMENT)];
  }

  /** One block of CreateShaderTables: the table's buffer, mapped, with the shader's
      identifier copied to its start. */
  method NewShaderTable(shaderId: seq<byte>) returns (table: array<byte>)
    requires |shaderId| == SHADER_IDENTIFIER_SIZE_IN_BYTES
    ensures fresh(table) && table[..] == shaderId
  {
    table := CreateShaderTableBuffer();
    ghost var created := table[..];
    Memcpy(table, 0, shaderId, 0, SHADER_IDENTIFIER_SIZE_IN_BYTES);
    OverwrittenWhole(created, shaderId);
  }

  /** Two back-to-back frames with the shared allocator: the first Render draws into
      back buffer 0 and the GPU has finished nothing when the CPU checks (completed value
      0); the swap chain moves to buffer 1, whose slot is still 0, so there is no wait.
      The second Render then resets the allocator while the first frame's list, signalled
      as 1, is still outstanding. */
  method BackToBackFramesResetInFlight() returns (resetInFlight: bool)
    ensures resetInFlight
  {
    var app := new App();
    var waited, firstReset := app.Render(1, 0, 0);
    assert !waited && app.fence.completed == 0 && app.allocatorLastUse == 1;
    waited, resetInFlight := app.Render(0, 0, 1);
  }

  /** The two descriptors CreateDescriptors lays out are distinct slots of the heap: the
      texture SRV sits exactly one increment after the film UAV, both inside a heap of
      two descriptors, provided the heap lies below 2^64. */
  lemma DescriptorSlotsDistinct(gpuStart: u64, descriptorSize: u32)
    requires 0 < descriptorSize && gpuStart + 2 * descriptorSize <= 0x1_0000_0000_0000_0000
    ensures HandleAt(gpuStart, 0, descriptorSize) == gpuStart
    ensures HandleAt(gpuStart, 1, descriptorSize) == gpuStart + descriptorSize
    ensures HandleAt(gpuStart, 0, descriptorSize) < HandleAt(gpuStart, 1, descriptorSize)
  {
    HandlesDistinct(gpuStart, descriptorSize, 2, 0, 1);
  }
}
