/** Memory copies, and the receiving side's buffer and command handler. */
module RecvBuffers {
  import opened Bytes
  import opened Receiver

  datatype Option<+T> = None | Some(value: T)

  method Memcpy(dst: array<byte>, to: nat, src: array<byte>, from: nat, n: nat)
    requires to + n <= dst.Length && from + n <= src.Length && dst != src
    modifies dst
    ensures dst[to..to + n] == src[from..from + n]
    ensures dst[..to] == old(dst[..to]) && dst[to + n..] == old(dst[to + n..])
  {
    forall i | 0 <= i < n {
      dst[to + i] := src[from + i];
    }
  }

  /** dawn::wire::CommandHandler: records each call; `answers` decides which ones succeed. */
  class CommandHandler {
    const answers: Answers
    var calls: seq<seq<byte>>

    constructor (answers: Answers)
      ensures this.answers == answers && calls == []
    {
      this.answers := answers;
      calls := [];
    }

    method HandleCommands(commands: array<byte>, size: nat) returns (ok: bool)
      requires size <= commands.Length
      modifies this
      ensures calls == old(calls) + [commands[..size]]
      ensures ok == answers(|old(calls)|)
    {
      ok := answers(|calls|);
      calls := calls + [commands[..size]];
    }
  }

  class RecvBuffer {
    const mHandler: CommandHandler
    const mBuffer: array<byte>
    var mOffset: nat

    constructor (capacity: nat, handler: CommandHandler)
      ensures mHandler == handler && mOffset == 0
      ensures fresh(mBuffer) && mBuffer.Length == capacity
    {
      mHandler := handler;
      mBuffer := new byte[capacity];
      mOffset := 0;
    }

    method Flush() returns (success: bool)
      requires mOffset <= mBuffer.Length
      modifies this, mHandler
      ensures mOffset == 0
      ensures mHandler.calls == old(mHandler.calls) + [mBuffer[..old(mOffset)]]
      ensures success == mHandler.answers(|old(mHandler.calls)|)
    {
      success := mHandler.HandleCommands(mBuffer, mOffset);
      mOffset := 0;
    }

    /** The space is reserved here; its bytes arrive later. */
    method GetCmdSpace(size: nat) returns (space: Option<nat>)
      requires mOffset <= mBuffer.Length
      modifies this, mHandler
      ensures mOffset <= mBuffer.Length
      ensures size > mBuffer.Length ==>
                space == None && mOffset == old(mOffset) && mHandler.calls == old(mHandler.calls)
      ensures old(mOffset) + size <= mBuffer.Length ==>
                space == Some(old(mOffset)) && mOffset == old(mOffset) + size
                && mHandler.calls == old(mHandler.calls)
      ensures size <= mBuffer.Length < old(mOffset) + size ==>
                && mHandler.calls == old(mHandler.calls) + [mBuffer[..old(mOffset)]]
                && if mHandler.answers(|old(mHandler.calls)|) then space == Some(0) && mOffset == size
                   else space == None && mOffset == 0
      decreases mOffset
    {
      if size > mBuffer.Length {
        return None;
      }
      var result := mOffset;
      if mBuffer.Length - size < mOffset {
        var flushed := Flush();
        if !flushed {
          return None;
        }
        space := GetCmdSpace(size);
        return;
      }
      mOffset := mOffset + size;
      return Some(result);
    }
  }
}
