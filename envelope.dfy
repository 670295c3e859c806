/**
 * The pooled response envelope (`MsgResponse`): an error code, a body and a
 * flag byte whose bit 0 marks encryption and bit 1 compression, taken from
 * a recycler and reset when it is returned.
 */
module Envelope {
  import opened JavaTypes

  /** Bit of the flag byte that marks a compressed body. */
  const COMPRESSION_MASK: bv8 := 2
  /** Bit of the flag byte that marks an encrypted body. */
  const ENCRYPTION_MASK: bv8 := 1

  /**
   * `ErrorCodeConstants.SUCCESS`.  ErrorCodeConstants is not part of this
   * model, so its value is left open.
   */
  const SUCCESS: int32

  predicate EncryptedFlag(flag: bv8) {
    flag & ENCRYPTION_MASK != 0
  }

  predicate CompressedFlag(flag: bv8) {
    flag & COMPRESSION_MASK != 0
  }

  /** The flag with the encryption bit set (`|=`) or cleared (`&= ~`). */
  function WithEncrypted(flag: bv8, encrypted: bool): (r: bv8)
    ensures EncryptedFlag(r) == encrypted
    ensures r & !ENCRYPTION_MASK == flag & !ENCRYPTION_MASK
  {
    if encrypted then flag | ENCRYPTION_MASK else flag & !ENCRYPTION_MASK
  }

  /** Setting or clearing the encryption bit never touches the compression bit. */
  lemma WithEncryptedKeepsCompression(flag: bv8, encrypted: bool)
    ensures CompressedFlag(WithEncrypted(flag, encrypted)) == CompressedFlag(flag)
  {
  }

  /** Setting the encryption bit twice is setting it once. */
  lemma WithEncryptedIdempotent(flag: bv8, encrypted: bool)
    ensures WithEncrypted(WithEncrypted(flag, encrypted), encrypted) == WithEncrypted(flag, encrypted)
  {
  }

  /** A flag that already has the requested encryption bit is left as it is. */
  lemma WithEncryptedNoChange(flag: bv8, encrypted: bool)
    requires EncryptedFlag(flag) == encrypted
    ensures WithEncrypted(flag, encrypted) == flag
  {
  }

  class MsgResponse<Body> {
    var errorCode: int32
    var body: Option<Body>
    var flag: bv8
    /** The recycler this envelope goes back to. */
    const handle: Recycler<Body>

    /** The state of a new envelope and of a returned one. */
    predicate IsReset()
      reads this
    {
      errorCode == 0 && body == None && flag == 0
    }

    constructor (handle: Recycler<Body>)
      ensures IsReset() && this.handle == handle
    {
      errorCode := 0;
      body := None;
      flag := 0;
      this.handle := handle;
    }

    /** `isEncrypted`: whether bit 0 of the flag is set. */
    method IsEncrypted() returns (r: bool)
      ensures r == EncryptedFlag(flag)
    {
      r := flag & ENCRYPTION_MASK != 0;
    }

    /** `setEncrypted`: sets or clears bit 0 only and returns the new flag. */
    method SetEncrypted(encrypted: bool) returns (r: bv8)
      modifies this
      ensures flag == WithEncrypted(old(flag), encrypted) && r == flag
      ensures errorCode == old(errorCode) && body == old(body)
    {
      if encrypted {
        flag := flag | ENCRYPTION_MASK;
      } else {
        flag := flag & !ENCRYPTION_MASK;
      }
      r := flag;
    }

    /** `recycle`: resets the three fields and hands the envelope back to its recycler. */
    method Recycle()
      requires handle.Valid() && this !in handle.free
      modifies this, handle
      ensures IsReset()
      ensures handle.Valid() && handle.free == old(handle.free) + [this]
    {
      flag := 0;
      errorCode := 0;
      body := None;
      handle.Release(this);
    }

    method GetErrorCode() returns (r: int32)
      ensures r == errorCode
    {
      r := errorCode;
    }

    method SetErrorCode(errorCode: int32)
      modifies this
      ensures this.errorCode == errorCode && body == old(body) && flag == old(flag)
    {
      this.errorCode := errorCode;
    }

    method GetFlag() returns (r: bv8)
      ensures r == flag
    {
      r := flag;
    }

    method SetFlag(flag: bv8)
      modifies this
      ensures this.flag == flag && errorCode == old(errorCode) && body == old(body)
    {
      this.flag := flag;
    }

    method GetBody() returns (r: Option<Body>)
      ensures r == body
    {
      r := body;
    }

    method SetBody(body: Option<Body>)
      modifies this
      ensures this.body == body && errorCode == old(errorCode) && flag == old(flag)
    {
      this.body := body;
    }
  }

  /**
   * The object pool behind `RECYCLER`: a stack of returned envelopes, all
   * reset, all made by this pool, none twice.  When it is empty a new
   * envelope is constructed with this pool as its handle.
   */
  class Recycler<Body> {
    var free: seq<MsgResponse<Body>>

    ghost predicate Valid()
      reads this, free
    {
      && (forall i :: 0 <= i < |free| ==> free[i].IsReset() && free[i].handle == this)
      && (forall i, j :: 0 <= i < j < |free| ==> free[i] != free[j])
    }

    constructor ()
      ensures Valid() && free == []
    {
      free := [];
    }

    /** `RECYCLER.get()`: the last returned envelope, or a new one. */
    method Get() returns (m: MsgResponse<Body>)
      requires Valid()
      modifies this
      ensures Valid() && m.IsReset() && m !in free && m.handle == this
      ensures if old(free) == [] then fresh(m) && free == []
              else m == old(free)[|old(free)| - 1] && free == old(free)[..|old(free)| - 1]
    {
      if |free| > 0 {
        m := free[|free| - 1];
        free := free[..|free| - 1];
      } else {
        m := new MsgResponse(this);
      }
    }

    /** `handle.recycle(m)`: takes back a reset envelope. */
    method Release(m: MsgResponse<Body>)
      requires Valid() && m.IsReset() && m !in free && m.handle == this
      modifies this
      ensures Valid() && free == old(free) + [m]
    {
      free := free + [m];
    }
  }

  /** `newInstance(body)`: a success envelope carrying the body; the flag is the pooled one, 0. */
  method NewInstance<Body>(recycler: Recycler<Body>, body: Option<Body>) returns (msg: MsgResponse<Body>)
    requires recycler.Valid()
    modifies recycler, recycler.free
    ensures recycler.Valid() && msg !in recycler.free && msg.handle == recycler
    ensures if old(recycler.free) == [] then fresh(msg) && recycler.free == []
            else msg == old(recycler.free)[|old(recycler.free)| - 1]
                 && recycler.free == old(recycler.free)[..|old(recycler.free)| - 1]
    ensures msg.errorCode == SUCCESS && msg.body == body && msg.flag == 0
  {
    msg := recycler.Get();
    msg.errorCode := SUCCESS;
    msg.body := body;
  }

  /** `newInstance(errorCode)`: an envelope carrying only the error code. */
  method NewInstanceWithError<Body>(recycler: Recycler<Body>, errorCode: int32) returns (msg: MsgResponse<Body>)
    requires recycler.Valid()
    modifies recycler, recycler.free
    ensures recycler.Valid() && msg !in recycler.free && msg.handle == recycler
    ensures if old(recycler.free) == [] then fresh(msg) && recycler.free == []
            else msg == old(recycler.free)[|old(recycler.free)| - 1]
                 && recycler.free == old(recycler.free)[..|old(recycler.free)| - 1]
    ensures msg.errorCode == errorCode && msg.body == None && msg.flag == 0
  {
    msg := recycler.Get();
    msg.errorCode := errorCode;
    msg.body := None;
  }

  /**
   * `newInstance(body, encrypted)`: a success envelope whose flag gets bit 0
   * when `encrypted`; otherwise the pooled flag is kept.  Either way the flag
   * is 0 or ENCRYPTION_MASK.
   */
  method NewInstanceEncrypted<Body>(recycler: Recycler<Body>, body: Option<Body>, encrypted: bool)
    returns (msg: MsgResponse<Body>)
    requires recycler.Valid()
    modifies recycler, recycler.free
    ensures recycler.Valid() && msg !in recycler.free && msg.handle == recycler
    ensures if old(recycler.free) == [] then fresh(msg) && recycler.free == []
            else msg == old(recycler.free)[|old(recycler.free)| - 1]
                 && recycler.free == old(recycler.free)[..|old(recycler.free)| - 1]
    ensures msg.errorCode == SUCCESS && msg.body == body
    ensures msg.flag == if encrypted then ENCRYPTION_MASK else 0
    ensures EncryptedFlag(msg.flag) == encrypted && !CompressedFlag(msg.flag)
  {
    msg := recycler.Get();
    msg.errorCode := SUCCESS;
    msg.body := body;
    var msgFlag := msg.flag;
    if encrypted {
      msgFlag := msgFlag | ENCRYPTION_MASK;
    }
    msg.flag := msgFlag;
  }
}
