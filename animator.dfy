/** The animation store: an ordered list of frames, a playback cursor and a
    playback interval, changed in place by the store's own operations and by
    the menu handlers of the terminal editor. */
module Animator {
  import opened Sequences
  import opened Playback
  import opened Editing
  import opened Options

  /** Rust's `u64`, the type of `speed` and of the number `adjust_speed`
      parses. */
  newtype u64 = x: int | 0 <= x < 0x1_0000_0000_0000_0000

  /** The interval a new animation starts with, in milliseconds. */
  const DefaultSpeed: u64 := 500

  /** One picture of the animation: its rows of text, top to bottom. */
  datatype Frame = Frame(content: seq<string>)

  /** The three fields of an animation as a decoded save file holds them. */
  datatype Snapshot = Snapshot(frames: seq<Frame>, currentFrame: nat, speed: u64)

  /** The cursor names a frame, or the store is still empty and the cursor is
      at its initial 0. Every operation keeps this. */
  predicate CursorValid(frameCount: nat, cursor: nat)
  {
    cursor < frameCount || (frameCount == 0 && cursor == 0)
  }

  /** The frame under the cursor exists, so `next_frame` and `edit_frame` can
      index it. */
  predicate Playable(frameCount: nat, cursor: nat)
  {
    cursor < frameCount
  }

  class Animation {
    var frames: seq<Frame>
    var currentFrame: nat
    var speed: u64

    predicate Valid()
      reads this
    {
      CursorValid(|frames|, currentFrame)
    }

    /** `Animation::new`: no frames, cursor 0, interval 500 ms. */
    constructor ()
      ensures frames == [] && currentFrame == 0 && speed == DefaultSpeed
      ensures Valid()
    {
      frames := [];
      currentFrame := 0;
      speed := DefaultSpeed;
    }

    /** What `load_animation` hands back: an animation with exactly the decoded
        fields, none of them checked. */
    constructor FromDecoded(decoded: Snapshot)
      ensures frames == decoded.frames && currentFrame == decoded.currentFrame && speed == decoded.speed
    {
      frames := decoded.frames;
      currentFrame := decoded.currentFrame;
      speed := decoded.speed;
    }

    /** Loading with the check the source leaves out: a decoded save replaces
        the animation only when its cursor names one of its frames, so the
        menu loop's next `next_frame` can run. */
    method Load(decoded: Snapshot) returns (loaded: bool)
      modifies this
      ensures loaded <==> Playable(|decoded.frames|, decoded.currentFrame)
      ensures loaded ==> frames == decoded.frames && currentFrame == decoded.currentFrame && speed == decoded.speed
      ensures !loaded ==> frames == old(frames) && currentFrame == old(currentFrame) && speed == old(speed)
      ensures old(Playable(|frames|, currentFrame)) ==> Playable(|frames|, currentFrame)
    {
      loaded := decoded.currentFrame < |decoded.frames|;
      if loaded {
        frames, currentFrame, speed := decoded.frames, decoded.currentFrame, decoded.speed;
      }
    }

    /** `add_frame`: the frame goes to the end; the cursor keeps its index. */
    method AddFrame(frame: Frame)
      modifies this
      ensures frames == old(frames) + [frame]
      ensures currentFrame == old(currentFrame) && speed == old(speed)
      ensures old(Valid()) ==> Valid() && Playable(|frames|, currentFrame)
    {
      frames := frames + [frame];
    }

    /** `next_frame`: returns the frame under the cursor and moves the cursor
        one place on, wrapping from the last frame to the first. Indexing an
        empty list or past the end panics in the source. */
    method NextFrame() returns (frame: Frame)
      requires Playable(|frames|, currentFrame)
      modifies this
      ensures frames == old(frames) && speed == old(speed)
      ensures frame == frames[old(currentFrame)]
      ensures currentFrame == Advance(old(currentFrame), |frames|)
      ensures currentFrame < |frames|
    {
      frame := frames[currentFrame];
      currentFrame := (currentFrame + 1) % |frames|;
    }

    /** `insert_frame`: the frame takes position `index` and the frames from
        there on shift right. The cursor keeps its index, so it may now name a
        different frame. `Vec::insert` panics when `index > len`. */
    method InsertFrame(index: nat, frame: Frame)
      requires index <= |frames|
      modifies this
      ensures frames == Insert(old(frames), index, frame)
      ensures currentFrame == old(currentFrame) && speed == old(speed)
      ensures old(Valid()) ==> Valid()
      ensures old(Playable(|frames|, currentFrame)) ==> Playable(|frames|, currentFrame)
    {
      frames := frames[..index] + [frame] + frames[index..];
    }

    /** `delete_frame`: removes the frame at `index` unless it is the only one
        (or there is none), then pulls the cursor back onto the last frame if
        it now points past the end. `Vec::remove` panics on an index out of
        range, which can only happen when there is more than one frame. */
    method DeleteFrame(index: nat)
      requires |frames| > 1 ==> index < |frames|
      modifies this
      ensures old(|frames|) > 1 ==>
        frames == Remove(old(frames), index) &&
        currentFrame == (if old(currentFrame) <= |frames| - 1 then old(currentFrame) else |frames| - 1)
      ensures old(|frames|) <= 1 ==> frames == old(frames) && currentFrame == old(currentFrame)
      ensures speed == old(speed)
      ensures |frames| >= 1 <==> old(|frames|) >= 1
      ensures old(|frames|) > 1 ==> Playable(|frames|, currentFrame)
      ensures old(Valid()) ==> Valid()
      ensures old(Playable(|frames|, currentFrame)) ==> Playable(|frames|, currentFrame)
    {
      if |frames| > 1 {
        frames := frames[..index] + frames[index + 1..];
        currentFrame := if currentFrame <= |frames| - 1 then currentFrame else |frames| - 1;
      }
    }

    /** `move_frame`: when both positions exist, the frame at `from` is taken
        out and re-inserted at `to`; otherwise nothing happens. */
    method MoveFrame(from: nat, to: nat)
      modifies this
      ensures from < old(|frames|) && to < old(|frames|) ==> frames == Move(old(frames), from, to)
      ensures !(from < old(|frames|) && to < old(|frames|)) ==> frames == old(frames)
      ensures |frames| == old(|frames|) && multiset(frames) == old(multiset(frames))
      ensures currentFrame == old(currentFrame) && speed == old(speed)
      ensures old(Valid()) ==> Valid()
      ensures old(Playable(|frames|, currentFrame)) ==> Playable(|frames|, currentFrame)
    {
      if from < |frames| && to < |frames| {
        var frame := frames[from];
        frames := frames[..from] + frames[from + 1..];
        frames := frames[..to] + [frame] + frames[to..];
      }
    }
  }

  /** The frames a fresh session starts with: a stick figure in two poses. */
  method StartSession() returns (animation: Animation)
    ensures fresh(animation)
    ensures animation.frames == [Frame(["  o  ", " /|\\ ", " / \\ "]), Frame(["  o  ", " /|\\ ", " | | "])]
    ensures animation.currentFrame == 0 && animation.speed == DefaultSpeed
    ensures Playable(|animation.frames|, animation.currentFrame)
  {
    animation := new Animation();
    animation.AddFrame(Frame(["  o  ", " /|\\ ", " / \\ "]));
    animation.AddFrame(Frame(["  o  ", " /|\\ ", " | | "]));
  }

  /** A save file holding no frames decodes, and `load_animation` accepts it,
      into an animation whose cursor names no frame: the menu loop's next
      `next_frame` then indexes an empty list. */
  method UncheckedLoadOfEmptySave() returns (animation: Animation)
    ensures fresh(animation)
    ensures !Playable(|animation.frames|, animation.currentFrame)
  {
    animation := new Animation.FromDecoded(Snapshot([], 0, DefaultSpeed));
  }

  /** `edit_frame`: the frame under the cursor is edited command by command
      until `q`. The frame is chosen once, on entry; all other frames, the
      cursor and the interval are left alone. */
  method EditFrame(animation: Animation, cmds: seq<LineCommand>)
    requires Playable(|animation.frames|, animation.currentFrame)
    modifies animation
    ensures animation.frames ==
      old(animation.frames)[old(animation.currentFrame) :=
        Frame(ApplyLineCommands(old(animation.frames[animation.currentFrame].content), cmds))]
    ensures animation.currentFrame == old(animation.currentFrame) && animation.speed == old(animation.speed)
  {
    var c := animation.currentFrame;
    ghost var edited := ApplyLineCommands(animation.frames[c].content, cmds);
    var i := 0;
    while i < |cmds| && !cmds[i].Finish?
      invariant i <= |cmds|
      invariant animation.currentFrame == c && animation.speed == old(animation.speed)
      invariant |animation.frames| == |old(animation.frames)|
      invariant animation.frames == old(animation.frames)[c := animation.frames[c]]
      invariant ApplyLineCommands(animation.frames[c].content, cmds[i..]) == edited
      decreases |cmds| - i
    {
      var content := animation.frames[c].content;
      match cmds[i] {
        case AppendLine(text) =>
          content := content + [text];
        case ReplaceLine(lineNum, text) =>
          if lineNum.Some? && lineNum.value < |content| {
            content := content[lineNum.value := text];
          }
        case DeleteLine(lineNum) =>
          if lineNum.Some? && lineNum.value < |content| {
            content := content[..lineNum.value] + content[lineNum.value + 1..];
          }
        case Invalid =>
      }
      assert cmds[i..][1..] == cmds[i + 1..];
      assert content == ApplyLineCommand(animation.frames[c].content, cmds[i]);
      animation.frames := animation.frames[c := Frame(content)];
      i := i + 1;
    }
  }

  /** `add_new_frame`: the lines typed before the first blank one become a new
      last frame, unless there were none. */
  method AddNewFrame(animation: Animation, lines: seq<string>)
    modifies animation
    ensures CollectLines(lines) != [] ==> animation.frames == old(animation.frames) + [Frame(CollectLines(lines))]
    ensures CollectLines(lines) == [] ==> animation.frames == old(animation.frames)
    ensures animation.currentFrame == old(animation.currentFrame) && animation.speed == old(animation.speed)
    ensures old(animation.Valid()) ==> animation.Valid()
  {
    var content := CollectFrameLines(lines);
    if content != [] {
      animation.AddFrame(Frame(content));
    }
  }

  /** `delete_current_frame`: deletes the frame under the cursor. */
  method DeleteCurrentFrame(animation: Animation)
    requires |animation.frames| > 1 ==> animation.currentFrame < |animation.frames|
    modifies animation
    ensures old(|animation.frames|) > 1 ==>
      animation.frames == Remove(old(animation.frames), old(animation.currentFrame))
    ensures old(|animation.frames|) > 1 ==>
      animation.currentFrame ==
        (if old(animation.currentFrame) <= |animation.frames| - 1 then old(animation.currentFrame) else |animation.frames| - 1)
    ensures old(|animation.frames|) <= 1 ==>
      animation.frames == old(animation.frames) && animation.currentFrame == old(animation.currentFrame)
    ensures |animation.frames| >= 1 <==> old(|animation.frames|) >= 1
    ensures old(animation.Valid()) ==> animation.Valid()
    ensures animation.speed == old(animation.speed)
  {
    animation.DeleteFrame(animation.currentFrame);
  }

  /** `reorder_frames`: `numbers` are the words of the input that parsed as
      unsigned integers; the move happens only when there are exactly two. */
  method ReorderFrames(animation: Animation, numbers: seq<nat>)
    modifies animation
    ensures |numbers| == 2 && numbers[0] < old(|animation.frames|) && numbers[1] < old(|animation.frames|) ==>
      animation.frames == Move(old(animation.frames), numbers[0], numbers[1])
    ensures !(|numbers| == 2 && numbers[0] < old(|animation.frames|) && numbers[1] < old(|animation.frames|)) ==>
      animation.frames == old(animation.frames)
    ensures animation.currentFrame == old(animation.currentFrame) && animation.speed == old(animation.speed)
  {
    if |numbers| == 2 {
      animation.MoveFrame(numbers[0], numbers[1]);
    }
  }

  /** `adjust_speed`: `parsed` is the trimmed input parsed as a `u64`, `None`
      when it did not parse. Only a successful parse changes the interval; zero
      is accepted. */
  method AdjustSpeed(animation: Animation, parsed: Option<u64>)
    modifies animation
    ensures parsed.Some? ==> animation.speed == parsed.value
    ensures parsed.None? ==> animation.speed == old(animation.speed)
    ensures animation.frames == old(animation.frames) && animation.currentFrame == old(animation.currentFrame)
  {
    if parsed.Some? {
      animation.speed := parsed.value;
    }
  }
}
