/** A buffered service: its flags, its place at the dispatcher, and what has happened to it. Each
    method is a piece of fdu_bufio_got_input, _got_output, _touch, _close or _free, cut where the
    user's callbacks are called. */
module BufioService {
  import opened Bytes
  import opened Bufio
  import opened Directions

  /** What the user sees of a service: notify callbacks, the close callback, and its memory given back. */
  datatype Happening = Notified | ClosedAt(fd: nat, errno: int) | Released

  /** What read or write returns: the bytes that came, or as many as were written, if it has not failed. */
  datatype Answer = Answer(bytes: seq<byte>, failed: bool, errno: int)

  const EINTR: int := 4
  const EAGAIN: int := 11
  const EPIPE: int := 32

  /** What comes of reading or writing. */
  datatype Exchange =
    | Parked                    // full or empty: nothing to do until it is touched
    | Moved                     // bytes have moved
    | Retry                     // EINTR or EAGAIN
    | Over                      // end of file, or an error

  /** Notify callbacks while it is open, then once the close callback, then once its release. */
  predicate InOrder(log: seq<Happening>, open: bool, released: bool) {
    var n := |log| - (if released then 2 else if open then 0 else 1);
    && n >= 0 && (forall i :: 0 <= i < n ==> log[i] == Notified)
    && (!open ==> log[n].ClosedAt?)
    && (released ==> !open && log[n + 1] == Released)
  }

  /** What the order means: the close callback is run at most once, no notify callback comes after it,
      and the release comes last, at most once, after the close callback. */
  lemma OrderMeans(log: seq<Happening>, open: bool, released: bool, i: nat, j: nat)
    requires InOrder(log, open, released) && i < j < |log|
    ensures log[i].ClosedAt? ==> log[j] == Released && j == |log| - 1
    ensures log[i] != Released
    ensures log[j] == Notified ==> log[i] == Notified
    ensures log[j] == Released ==> released && log[j - 1].ClosedAt?
  {
  }

  class Service {
    const direction: Direction
    const buffer: Buffer
    const notifies: bool
    var fd: int
    var canXfer: bool
    var closeErrno: int
    var active: bool            // the three bits of callstack
    var closed: bool
    var freed: bool
    var registered: bool        // whether the dispatcher has it
    var released: bool          // whether its memory has been given back
    ghost var asked: bool       // whether the user has freed it
    ghost var ending: bool      // whether there has been a reason to close it
    ghost var log: seq<Happening>
    ghost var stream: seq<byte> // all the bytes read or written so far

    /** What holds whenever the user can see the service. While it is open, a reason to close it is kept
        in its flags until the callback that is running returns. */
    ghost predicate Inv()
      reads this, buffer
    {
      Sound() && (fd >= 0 ==> (ending <==> closed || freed))
    }

    ghost predicate Sound()
      reads this, buffer
    {
      && Core()
      && (active ==> freed == asked && (fd >= 0 ==> !canXfer))
      && (closed ==> active && fd >= 0)
      && (!active ==> !freed && asked == released)
    }

    /** When fdu_bufio_close may be called, given a reason: at any time, and when a callback of the service
        has just returned. */
    ghost predicate MayClose()
      reads this, buffer
    {
      Sound() || (Core() && !active && !closed && freed == asked && fd >= 0)
    }

    /** The part of it that holds between leaving a callback and closing, too. */
    ghost predicate Core()
      reads this, buffer
    {
      && buffer.Valid() && fd >= -1 && InOrder(log, fd >= 0, released)
      && registered == (fd >= 0 && !canXfer)
      && (released ==> !active && asked)
      && (fd < 0 || closed || asked ==> ending)
    }

    /** fdu_new_input_bufio or fdu_new_output_bufio. */
    constructor (direction: Direction, fd: nat, size: nat, notifies: bool)
      ensures this.direction == direction && this.notifies == notifies && this.fd == fd
      ensures fresh(buffer) && fresh(buffer.data) && buffer.data.Length == size
      ensures buffer.Valid() && buffer.Contents() == []
      ensures Inv() && !active && !released && registered && log == [] && stream == [] && closeErrno == 0 && !ending
    {
      this.direction, this.fd, this.notifies := direction, fd, notifies;
      buffer := new Buffer(size);
      canXfer, closeErrno := false, 0;
      active, closed, freed := false, false, false;
      registered := true;
      released, asked, ending, log, stream := false, false, false, [], [];
    }

    /** fdu_bufio_is_closed. */
    predicate IsClosed()
      reads this
    {
      fd < 0
    }

    /** The system keeps to the room there is, or to the bytes there are. */
    predicate Keeps(answer: Answer)
      reads this, buffer
    {
      |answer.bytes| <= if direction == Input then buffer.Room() else buffer.filled
    }

    /** The first part of fdu_bufio_got_input and fdu_bufio_got_output, given what read or write returns if
        it is called: for want of room, or of bytes to write, it is not. */
    method DoExchange(answer: Answer) returns (r: Exchange)
      requires Inv() && !active && !IsClosed() && Keeps(answer)
      modifies this`canXfer, this`registered, this`closeErrno, this`stream, this`ending, buffer, buffer.data
      ensures Sound() && !released && (r != Over ==> Inv())
      ensures r == Parked <==> old(if direction == Input then buffer.Room() == 0 else buffer.filled == 0)
      ensures r == Parked <==> canXfer
      ensures r == Moved <==> r != Parked && !answer.failed && answer.bytes != []
      ensures r == Retry <==> r != Parked && (answer.failed || (answer.bytes == [] && direction == Output))
                              && (answer.errno == EINTR || answer.errno == EAGAIN)
      ensures r != Moved ==> buffer.Contents() == old(buffer.Contents()) && stream == old(stream)
      ensures r == Moved && direction == Input ==>
                buffer.Contents() == old(buffer.Contents()) + answer.bytes && stream == old(stream) + answer.bytes
      ensures r == Moved && direction == Output ==>
                && buffer.Contents() == old(buffer.Contents())[|answer.bytes|..]
                && stream == old(stream) + old(buffer.Contents())[..|answer.bytes|]
      ensures ending == (r == Over)
      ensures closeErrno == if r == Over && (if direction == Input then answer.failed else answer.errno != EPIPE) then
                              answer.errno else old(closeErrno)
    {
      if (if direction == Input then buffer.Room() == 0 else buffer.filled == 0) {
        canXfer, registered := true, false;
        return Parked;
      }
      if canXfer {
        canXfer, registered := false, true;
      }
      var n := if answer.failed then -1 else |answer.bytes|;
      if n > 0 {
        if direction == Input {
          buffer.Append(answer.bytes);
          stream := stream + answer.bytes;
        } else {
          stream := stream + buffer.Contents()[..n];
          buffer.Drop(n);
        }
        return Moved;
      }
      r := Over;
      if direction == Input && n == 0 {
      } else if direction == Output && answer.errno == EPIPE {
      } else if answer.errno != EINTR && answer.errno != EAGAIN {
        closeErrno := answer.errno;
      } else {
        r := Retry;
      }
      ending := r == Over;
    }

    /** The notify callback is about to be called. */
    method EnterNotify()
      requires Inv() && !active && !IsClosed() && !canXfer
      modifies this`active, this`log
      ensures Inv() && active && log == old(log) + [Notified]
    {
      active := true;
      log := log + [Notified];
    }

    /** The notify callback has returned: whether the service is to be closed now. A request to close
        it that came meanwhile is carried out, and so is one to free it, which closing does. */
    method LeaveNotify(stayOpen: bool) returns (lazyClose: bool)
      requires Inv() && active && !IsClosed()
      modifies this`active, this`closed, this`ending
      ensures MayClose() && !active && !closed && freed == asked && fd == old(fd) && (!lazyClose ==> Inv())
      ensures lazyClose <==> !stayOpen || old(closed) || freed
      ensures lazyClose == ending == (old(ending) || !stayOpen)
    {
      lazyClose := !stayOpen || closed || freed;
      active, closed, ending := false, false, ending || !stayOpen;
    }

    /** fdu_bufio_close, up to the close callback; the callback is to be called if `now`. */
    method EnterClose() returns (now: bool, fd': int)
      requires MayClose() && !released && ending
      modifies this`active, this`closed, this`fd, this`registered, this`log
      ensures Inv()
      ensures now <==> old(!IsClosed() && !active)
      ensures now ==> active && IsClosed() && fd' == old(fd) && log == old(log) + [ClosedAt(fd', closeErrno)]
      ensures !now ==> active == old(active) && fd == old(fd) && registered == old(registered) && log == old(log)
      ensures !now ==> (closed <==> old(closed) || old(!IsClosed() && active))
    {
      fd' := fd;
      now := false;
      if IsClosed() {
        return;
      }
      if active {
        closed := true;
        return;
      }
      now := true;
      fd, registered := -1, false;
      active := true;
      log := log + [ClosedAt(fd', closeErrno)];
    }

    /** The close callback has returned: the memory is given back if the user asked for that. */
    method LeaveClose()
      requires Inv() && active && IsClosed()
      modifies this`active, this`freed, this`released, this`log
      ensures Inv() && !active
      ensures released == asked && log == old(log) + if asked then [Released] else []
    {
      var lazyFree := freed;
      active, freed := false, false;
      if lazyFree {
        released := true;
        log := log + [Released];
      }
    }

    /** fdu_bufio_free, up to the call of fdu_bufio_close; that is to be called if `now`. */
    method EnterFree() returns (now: bool)
      requires Inv() && !released
      modifies this`freed, this`asked, this`released, this`ending, this`log
      ensures asked && ending && now == (!active && !IsClosed())
      ensures MayClose() && (!now ==> Inv())
      ensures released == old(!active && IsClosed()) && log == old(log) + if released then [Released] else []
    {
      asked, ending := true, true;
      if active {
        freed := true;
        return false;
      }
      if IsClosed() {
        released := true;
        log := log + [Released];
        return false;
      }
      freed := true;
      now := true;
    }

    /** fdu_bufio_touch, up to the call of fdu_bufio_got_input or fdu_bufio_got_output; that is to be
        called if `go`. */
    method EnterTouch() returns (ok: bool, go: bool)
      requires Inv() && !released
      ensures ok == !IsClosed()
      ensures go <==> !IsClosed() && canXfer && if direction == Input then buffer.Room() > 0 else buffer.filled > 0
      ensures go ==> !active
    {
      if IsClosed() {
        return false, false;
      }
      ok := true;
      go := canXfer && if direction == Input then buffer.filled < buffer.data.Length else buffer.filled > 0;
    }
  }
}
