/** The users of the MD5: `Device::firmwareMD5` of src/cpp17/device.hpp, which hashes a file in one go
    and prints it in hexadecimal, and of src/arduino/esp/device.hpp, which hashes flash memory through
    whatever buffer it managed to allocate. */
module FirmwareHash {
  import opened Bits
  import opened Text
  import Md5
  import Rfc = Rfc1321

  /** One `MD5_Init`, one `MD5_Update` per chunk and one `MD5_Final`: however the message is cut, and
      whatever the word size, the result is the digest that RFC 1321 gives the whole message. */
  method HashChunks(width: nat, longWidth: nat, chunks: seq<seq<Rfc.byte>>) returns (digest: array<Rfc.byte>)
    requires width >= 32 && longWidth >= 32
    requires forall i :: 0 <= i < |chunks| ==> |chunks[i]| < Pow2(longWidth)
    ensures digest[..] == Rfc.Digest(Concat(chunks))
  {
    hide Pow2, Rfc.Digest, Md5.Context.Valid;
    var ctx := new Md5.Context(width, longWidth);
    ctx.Init();
    for i := 0 to |chunks|
      invariant ctx.Valid() && fresh(ctx) && fresh(ctx.buffer) && fresh(ctx.block)
      invariant ctx.longWidth == longWidth
      invariant ctx.message == Concat(chunks[..i])
    {
      var c := chunks[i];
      var data := new Rfc.byte[|c|](j requires 0 <= j < |c| => c[j]);
      assert data[..|c|] == c;
      ctx.Update(data, |c|);
      assert chunks[..i + 1][..i] == chunks[..i];
    }
    assert chunks[..|chunks|] == chunks;
    digest := new Rfc.byte[16](_ => 0);
    ctx.Final(digest);
    assert digest[..] == digest[..16];
  }

  // ---------- src/cpp17/device.hpp ----------

  /** One digit of `%02X`. */
  function HexDigit(n: nat): char
    requires n < 16
  {
    "0123456789ABCDEF"[n]
  }

  function HexByte(b: Rfc.byte): (text: string)
    ensures |text| == 2
  {
    [HexDigit(b / 16), HexDigit(b % 16)]
  }

  function HexText(digest: seq<Rfc.byte>): string {
    if digest == [] then "" else HexByte(digest[0]) + HexText(digest[1..])
  }

  function DigitValue(c: char): nat {
    if '0' <= c <= '9' then c as nat - '0' as nat else if 'A' <= c <= 'F' then c as nat - 'A' as nat + 10 else 0
  }

  function ByteValue(h: char, l: char): nat { 16 * DigitValue(h) + DigitValue(l) }

  function ReadHex(text: string): seq<nat> {
    if |text| < 2 then [] else [ByteValue(text[0], text[1])] + ReadHex(text[2..])
  }

  lemma DigitReadsBack(n: nat)
    requires n < 16
    ensures DigitValue(HexDigit(n)) == n
  {
  }

  lemma ByteReadsBack(b: Rfc.byte)
    ensures ByteValue(HexByte(b)[0], HexByte(b)[1]) == b
  {
    DigitReadsBack(b / 16);
    DigitReadsBack(b % 16);
    hide HexDigit, DigitValue;
  }

  /** The text has two characters a byte and determines every byte. */
  lemma {:induction false} HexTextReadsBack(digest: seq<Rfc.byte>)
    ensures |HexText(digest)| == 2 * |digest|
    ensures ReadHex(HexText(digest)) == digest
  {
    if digest != [] {
      hide HexByte, ByteValue;
      HexTextReadsBack(digest[1..]);
      assert HexText(digest)[2..] == HexText(digest[1..]);
      ByteReadsBack(digest[0]);
    }
  }

  lemma HexCons(a: Rfc.byte, rest: seq<Rfc.byte>)
    ensures HexText([a] + rest) == HexByte(a) + HexText(rest)
  {
    assert ([a] + rest)[1..] == rest;
  }

  lemma FourBytes(a: Rfc.byte, b: Rfc.byte, c: Rfc.byte, d: Rfc.byte)
    ensures HexText([a, b, c, d]) == HexByte(a) + (HexByte(b) + (HexByte(c) + (HexByte(d) + "")))
  {
    assert HexText([]) == "";
    hide HexByte, HexText;
    assert [d] + [] == [d] && [c] + [d] == [c, d] && [b] + [c, d] == [b, c, d] && [a] + [b, c, d] == [a, b, c, d];
    HexCons(d, []);
    HexCons(c, [d]);
    HexCons(b, [c, d]);
    HexCons(a, [b, c, d]);
  }

  /** All sixteen digits, in capitals, the high one of a byte first. */
  lemma HexDigitsPrinted()
    ensures HexText([0x01, 0x23, 0x45, 0x67]) == "01234567"
    ensures HexText([0x89, 0xAB, 0xCD, 0xEF]) == "89ABCDEF"
  {
    hide HexText;
    FourBytes(0x01, 0x23, 0x45, 0x67);
    FourBytes(0x89, 0xAB, 0xCD, 0xEF);
    assert HexByte(0x01) == "01" && HexByte(0x23) == "23" && HexByte(0x45) == "45" && HexByte(0x67) == "67";
    assert HexByte(0x89) == "89" && HexByte(0xAB) == "AB" && HexByte(0xCD) == "CD" && HexByte(0xEF) == "EF";
    hide HexByte;
  }

  lemma {:induction false} HexTextConcat(x: seq<Rfc.byte>, y: seq<Rfc.byte>)
    ensures HexText(x + y) == HexText(x) + HexText(y)
  {
    if x == [] {
      assert x + y == y;
    } else {
      assert (x + y)[1..] == x[1..] + y;
      HexTextConcat(x[1..], y);
    }
  }

  class Device {
    const hash: array<char>
    var cached: bool

    /** The number of bits of `unsigned long`, the type of a size given to `MD5_Update`. */
    const longWidth: nat

    /** The firmware image hashed by the first call. */
    ghost var image: seq<Rfc.byte>

    ghost predicate Valid()
      reads this, hash
    {
      hash.Length == 32 && longWidth >= 32 && (cached ==> hash[..] == HexText(Rfc.Digest(image)))
    }

    constructor (longWidth: nat)
      requires longWidth >= 32
      ensures Valid() && !cached && fresh(hash) && this.longWidth == longWidth
    {
      hash := new char[32];
      cached, this.longWidth := false, longWidth;
    }

    /** `file` is what the executable holds at the time of the call; `isOpen`, `isRead` and `isClosed` tell
        whether these three operations on it succeed.  `ok` is false when it panics. */
    method FirmwareMD5(file: array<Rfc.byte>, isOpen: bool, isRead: bool, isClosed: bool)
      returns (ok: bool, text: array<char>)
      requires Valid() && file.Length < Pow2(longWidth)
      modifies this, hash
      ensures Valid() && text == hash
      ensures ok <==> old(cached) || (isOpen && isRead && isClosed)
      ensures cached == ok
      ensures image == if ok && !old(cached) then file[..] else old(image)
      ensures old(cached) ==> hash[..] == old(hash[..])
    {
      hide Pow2, Rfc.Digest, Md5.Context.Valid;
      if cached {
        return true, hash;
      }
      forall i | 0 <= i < hash.Length { hash[i] := '\0'; }
      if !isOpen || !isRead || !isClosed {
        return false, hash;
      }
      var ctx := new Md5.Context(32, longWidth);
      ctx.Init();
      ctx.Update(file, file.Length);
      assert ctx.message == file[..];
      var buff := new Rfc.byte[16](_ => 0);
      ctx.Final(buff);
      assert buff[..] == buff[..16] == Rfc.Digest(file[..]);
      WriteHex(buff);
      cached := true;
      image := file[..];
      return true, hash;
    }

    /** The `%02X` loop. */
    method WriteHex(buff: array<Rfc.byte>)
      requires hash.Length == 32 && buff.Length == 16
      modifies hash
      ensures hash[..] == HexText(buff[..])
    {
      ghost var digest := buff[..];
      for i := 0 to 16
        invariant hash[..2 * i] == HexText(digest[..i])
      {
        hash[2 * i] := HexDigit(buff[i] / 16);
        hash[2 * i + 1] := HexDigit(buff[i] % 16);
        HexTextConcat(digest[..i], [digest[i]]);
        assert digest[..i + 1] == digest[..i] + [digest[i]];
        assert HexText([digest[i]]) == HexByte(digest[i]);
      }
      assert digest[..16] == digest && hash[..32] == hash[..];
    }
  }

  // ---------- src/arduino/esp/device.hpp ----------

  datatype EspResult = Hashed(digest: seq<Rfc.byte>) | TooLowOnRam | FlashReadFailed

  /** The size of the buffer, if it passes the check that it is above 128: the first halving of 1024 that
      can be allocated. */
  function BufferSize(allocate: nat -> bool): nat {
    if allocate(512) then 512 else if allocate(256) then 256 else 128
  }

  /** Every read from `offset` on, one per buffer, succeeds. */
  predicate ReadsSucceed(readOk: nat -> bool, bufSize: nat, offset: nat, size: nat)
    requires bufSize > 0
    decreases size - offset
  {
    offset >= size || (readOk(offset) && ReadsSucceed(readOk, bufSize, offset + bufSize, size))
  }

  lemma NextRead(readOk: nat -> bool, bufSize: nat, offset: nat, size: nat)
    requires bufSize > 0 && offset <= size
    ensures ReadsSucceed(readOk, bufSize, size, size)
    ensures offset < size ==>
              ReadsSucceed(readOk, bufSize, offset, size)
              == (readOk(offset)
                  && ReadsSucceed(readOk, bufSize, if size - offset < bufSize then size else offset + bufSize, size))
  {
  }

  /** An aligned read from a multiple of 4 ends at the next multiple of 4 behind the image at the latest. */
  lemma AlignedFits(offset: nat, n: nat, size: nat)
    requires offset % 4 == 0 && offset + n <= size
    ensures offset + (n + 3) / 4 * 4 <= (size + 3) / 4 * 4
  {
  }

  lemma NextPiece(s: seq<Rfc.byte>, k: nat, n: nat)
    requires k + n <= |s|
    ensures s[..k] + s[k..k + n] == s[..k + n]
  {
  }

  class EspDevice {
    /** The cached result of the first call that succeeded. */
    var md5: Option<seq<Rfc.byte>>

    constructor ()
      ensures md5 == None
    {
      md5 := None;
    }

    static method Calculate(builder: Md5.Context) returns (digest: seq<Rfc.byte>)
      requires builder.Valid()
      modifies builder, builder.buffer, builder.block
      ensures digest == Rfc.Digest(old(builder.message))
    {
      hide Rfc.Digest, Md5.Context.Valid;
      var result := new Rfc.byte[16](_ => 0);
      builder.Final(result);
      assert result[..] == result[..16];
      return result[..];
    }

    /** One read of whole 32-bit words, of which the first `readBytes` bytes are hashed. */
    static method AddBlock(builder: Md5.Context, flash: array<Rfc.byte>, offset: nat, readBytes: nat,
                           buf: array<Rfc.byte>)
      requires builder.Valid() && builder.longWidth == 32
      requires buf != flash && buf != builder.buffer && flash != builder.buffer
      requires readBytes <= buf.Length <= 512 && buf.Length % 4 == 0
      requires offset + (readBytes + 3) / 4 * 4 <= flash.Length
      modifies buf, builder, builder.buffer, builder.block
      ensures builder.Valid() && builder.message == old(builder.message) + flash[offset..offset + readBytes]
    {
      hide Pow2, Md5.Context.Valid;
      Pow2Values();
      var alignedSize := (readBytes + 3) / 4 * 4;
      Md5.Memcpy(buf, 0, flash, offset, alignedSize);
      assert buf[..readBytes] == flash[offset..offset + readBytes];
      builder.Update(buf, readBytes);
    }

    method HashFlash(flash: array<Rfc.byte>, sketchSize: nat, buf: array<Rfc.byte>, readOk: nat -> bool)
      returns (r: EspResult)
      requires sketchSize < 0x1_0000_0000 && (sketchSize + 3) / 4 * 4 <= flash.Length
      requires buf.Length in {256, 512} && buf != flash
      modifies buf
      ensures if ReadsSucceed(readOk, buf.Length, 0, sketchSize) then r == Hashed(Rfc.Digest(old(flash[..sketchSize])))
              else r == FlashReadFailed
    {
      hide Pow2, Rfc.Digest, Md5.Context.Valid, ReadsSucceed;
      Pow2Values();
      var builder := new Md5.Context(32, 32);
      builder.Init();
      var lengthLeft: nat, offset: nat := sketchSize, 0;
      ghost var image := flash[..];
      while lengthLeft > 0
        invariant builder.Valid() && fresh(builder) && fresh(builder.buffer) && fresh(builder.block)
        invariant flash[..] == image
        invariant builder.longWidth == 32
        invariant offset + lengthLeft == sketchSize <= flash.Length
        invariant ReadsSucceed(readOk, buf.Length, offset, sketchSize)
                  == ReadsSucceed(readOk, buf.Length, 0, sketchSize)
        invariant lengthLeft > 0 ==> offset % 4 == 0
        invariant builder.message == image[..offset]
        decreases lengthLeft
      {
        NextRead(readOk, buf.Length, offset, sketchSize);
        var readBytes := if lengthLeft < buf.Length then lengthLeft else buf.Length;
        if !readOk(offset) {
          return FlashReadFailed;
        }
        AlignedFits(offset, readBytes, sketchSize);
        AddBlock(builder, flash, offset, readBytes, buf);
        NextPiece(image, offset, readBytes);
        assert flash[offset..offset + readBytes] == image[offset..offset + readBytes];
        lengthLeft := lengthLeft - readBytes;
        offset := offset + readBytes;
      }
      NextRead(readOk, buf.Length, offset, sketchSize);
      var digest := Calculate(builder);
      assert image[..sketchSize] == old(flash[..sketchSize]);
      return Hashed(digest);
    }

    /** `allocate(n)` tells whether an allocation of `n` bytes succeeds, `readOk(offset)` whether a flash
        read there does.  The image is the first `sketchSize` bytes of the flash, which goes on at least
        to the next multiple of 4. */
    method FirmwareMD5(flash: array<Rfc.byte>, sketchSize: nat, allocate: nat -> bool, readOk: nat -> bool)
      returns (r: EspResult)
      requires sketchSize < 0x1_0000_0000 && (sketchSize + 3) / 4 * 4 <= flash.Length
      modifies this
      ensures old(md5).Some? ==> r == Hashed(old(md5).value)
      ensures old(md5).None? ==>
                if !allocate(512) && !allocate(256) then r == TooLowOnRam
                else if !ReadsSucceed(readOk, BufferSize(allocate), 0, sketchSize) then r == FlashReadFailed
                else r == Hashed(Rfc.Digest(flash[..sketchSize]))
      ensures md5 == if r.Hashed? then Some(r.digest) else old(md5)
    {
      if md5.Some? {
        return Hashed(md5.value);
      }
      var lengthLeft := sketchSize;
      var bufSize := 1024;
      var buf: array?<Rfc.byte> := null;
      var offset := 0;
      while buf == null && bufSize > 1
        invariant bufSize in {1024, 512, 256} || (bufSize <= 128 && !allocate(512) && !allocate(256))
        invariant buf != null ==> buf.Length == bufSize && allocate(bufSize) && fresh(buf)
        invariant buf == null && bufSize <= 512 ==> !allocate(512)
        invariant buf == null && bufSize <= 256 ==> !allocate(256)
        invariant bufSize == 256 ==> !allocate(512)
        invariant bufSize == 1024 ==> buf == null
        invariant md5 == old(md5)
        decreases bufSize
      {
        bufSize := bufSize / 2;
        if allocate(bufSize) {
          buf := new Rfc.byte[bufSize](_ => 0);
        }
      }
      if bufSize <= 128 {
        return TooLowOnRam;
      }
      r := HashFlash(flash, sketchSize, buf, readOk);
      if r.Hashed? {
        md5 := Some(r.digest);
      }
    }
  }
}
