/**
 The formatter of src/ivybuffer.c: format at the end of the buffer, and when
 the text does not fit grow and format again.
 */
module IvyBuffers {
  import opened Bits

  const IVY_BUFFER_SIZE: nat := 4096

  // ---- vsnprintf ----

  /**
   What vsnprintf answers when the text does not fit: the length it needed
   (C99), always -1 (glibc 2.0), or, on Windows, where it leaves out the
   terminator to make room, the length if just the text fits and -1 otherwise.
   */
  datatype Convention = C99 | Glibc20 | Windows

  function Returned(conv: Convention, len: nat, room: nat): int {
    if len < room || conv == C99 || (conv == Windows && len == room) then len else -1
  }

  /** The characters it writes. */
  function Image(conv: Convention, text: string, room: nat): (s: string)
    ensures |s| <= room
    ensures |text| < room ==> s == text + "\0"
  {
    if |text| < room then text + "\0"
    else if conv == Windows then text[..room]
    else if room == 0 then ""
    else text[..room - 1] + "\0"
  }

  /** s with image written over it from at on. */
  function Overwritten(s: string, at: nat, image: string): string
    requires at + |image| <= |s|
  {
    s[..at] + image + s[at + |image|..]
  }

  method Vsnprintf(conv: Convention, buf: array<char>, at: nat, room: nat, text: string) returns (n: int)
    requires at + room <= buf.Length
    modifies buf
    ensures n == Returned(conv, |text|, room)
    ensures buf[..] == Overwritten(old(buf[..]), at, Image(conv, text, room))
  {
    var image := Image(conv, text, room);
    for i := 0 to |image|
      invariant forall k :: 0 <= k < i ==> buf[at + k] == image[k]
      invariant forall k :: 0 <= k < at || at + |image| <= k < buf.Length ==> buf[k] == old(buf[k])
    {
      buf[at + i] := image[i];
    }
    n := Returned(conv, |text|, room);
  }

  // ---- how far a buffer grows ----

  /** The size at which a text of length len first fits after offset, and the attempts it takes. */
  function Grown(conv: Convention, size: nat, offset: nat, len: nat): (r: (nat, nat))
    requires offset < size
    ensures r.0 > offset + len && r.1 >= 1
    decreases offset + len + 1 - size
  {
    if len < size - offset then (size, 1)
    else
      var g := Grown(conv, if Returned(conv, len, size - offset) > -1 then offset + len + 1 else 2 * size, offset, len);
      (g.0, g.1 + 1)
  }

  /** Told the length, at most two attempts, and exactly the room needed. */
  lemma C99Attempts(size: nat, offset: nat, len: nat)
    requires offset < size
    ensures var g := Grown(C99, size, offset, len);
      g == if offset + len < size then (size, 1) else (offset + len + 1, 2)
  {
    if offset + len >= size {
      assert Grown(C99, offset + len + 1, offset, len) == (offset + len + 1, 1);
    }
  }

  lemma OnePower()
    ensures Pow2(0) == 1
  {
  }

  lemma DoubledSize(size: nat, k: nat)
    ensures 2 * size * Pow2(k) == size * Pow2(k + 1)
  {
    MulTwice(size, Pow2(k));
  }

  /** Told only that it failed, the size is doubled as often as needed and no oftener. */
  lemma {:induction false} GlibcAttempts(size: nat, offset: nat, len: nat)
    requires offset < size
    ensures var g := Grown(Glibc20, size, offset, len);
      g.0 == size * Pow2(g.1 - 1) && (g.1 > 1 ==> size * Pow2(g.1 - 2) <= offset + len)
    decreases offset + len + 1 - size
  {
    hide Pow2;
    OnePower();
    var g := Grown(Glibc20, size, offset, len);
    if offset + len >= size {
      GlibcAttempts(2 * size, offset, len);
      var h := Grown(Glibc20, 2 * size, offset, len);
      assert g == (h.0, h.1 + 1);
      DoubledSize(size, h.1 - 1);
      if h.1 > 1 {
        DoubledSize(size, h.1 - 2);
      }
    }
  }

  /** Under every convention the buffer is kept as it is, or ends exact or at most twice as large as the whole contents. */
  lemma {:induction false} GrownBound(conv: Convention, size: nat, offset: nat, len: nat)
    requires offset < size
    ensures var g := Grown(conv, size, offset, len);
      (g.0 == size <==> offset + len < size) && (g.0 == size || size < g.0 <= 2 * (offset + len) || g.0 == offset + len + 1)
    decreases offset + len + 1 - size
  {
    if offset + len >= size {
      GrownBound(conv, if Returned(conv, len, size - offset) > -1 then offset + len + 1 else 2 * size, offset, len);
    }
  }

  /** After the given number of attempts the buffer has this size and still has to reach its final one. */
  ghost predicate Trying(conv: Convention, size0: nat, size: nat, offset: nat, len: nat, attempts: nat) {
    && offset < size && offset < size0
    && Grown(conv, size0, offset, len) == (Grown(conv, size, offset, len).0, attempts + Grown(conv, size, offset, len).1)
  }

  lemma TryingStarts(conv: Convention, size: nat, offset: nat, len: nat)
    requires offset < size
    ensures Trying(conv, size, size, offset, len, 0)
  {
  }

  /** What one attempt tells. */
  lemma TryingStep(conv: Convention, size0: nat, size: nat, offset: nat, len: nat, attempts: nat)
    requires Trying(conv, size0, size, offset, len, attempts)
    ensures offset < size && offset < size0
    ensures var n := Returned(conv, len, size - offset);
      if n > -1 && n < size - offset then n == len && Grown(conv, size0, offset, len) == (size, attempts + 1)
      else
        var size' := if n > -1 then offset + n + 1 else size * 2;
        len >= size - offset && size' > size && Trying(conv, size0, size', offset, len, attempts + 1)
  {
  }

  /** A failed attempt leaves the messages before it alone. */
  lemma AttemptKeeps(s: string, at: nat, image: string)
    requires at + |image| <= |s|
    ensures |Overwritten(s, at, image)| == |s| && Overwritten(s, at, image)[..at] == s[..at]
  {
  }

  /** A successful one puts the text and a terminator after them. */
  lemma AttemptAppends(conv: Convention, s: string, at: nat, room: nat, text: string)
    requires |text| < room && at + room <= |s|
    ensures var t := Overwritten(s, at, Image(conv, text, room));
      |t| == |s| && t[..at + |text|] == s[..at] + text && t[at + |text|] == '\0'
  {
    var t := Overwritten(s, at, text + "\0");
    assert t[..at + |text|] == s[..at] + text;
  }

  // ---- the buffer ----

  class IvyBuffer {
    var data: array?<char>
    var size: nat
    var offset: nat

    predicate Allocated()
      reads this
    {
      data != null && size != 0
    }

    ghost predicate Valid()
      reads this
    {
      Allocated() ==> size == data.Length && offset < size
    }

    /** The messages formatted so far. */
    function Text(): string
      requires Valid()
      reads this, data
    {
      if Allocated() then data[..offset] else ""
    }

    /** {NULL, 0, 0} */
    constructor ()
      ensures Valid() && Text() == "" && offset == 0 && !Allocated()
    {
      data, size, offset := null, 0, 0;
    }

    /** After an attempt that did not fit: the exact room if its length is known, otherwise twice the size, and realloc. */
    method Enlarge(n: int)
      requires Valid() && Allocated() && (n > -1 ==> n >= size - offset)
      modifies this`size, this`data
      ensures size == if n > -1 then offset + n + 1 else old(size) * 2
      ensures fresh(data) && Valid() && Allocated() && Text() == old(Text())
    {
      var from := data;
      if n > -1 {
        size := offset + n + 1;
      } else {
        size := size * 2;
      }
      var to := new char[size];
      for i := 0 to from.Length
        invariant size == to.Length
        invariant forall k :: 0 <= k < i ==> to[k] == from[k]
      {
        to[i] := from[i];
      }
      data := to;
      assert data[..offset] == from[..offset];
    }

    /** The first allocation */
    method Allocate()
      requires Valid()
      modifies this
      ensures Valid() && Allocated() && Text() == old(Text()) && offset == |Text()|
      ensures if old(Allocated()) then data == old(data) && size == old(size) else fresh(data) && size == IVY_BUFFER_SIZE
    {
      if size == 0 || data == null {
        size := IVY_BUFFER_SIZE;
        offset := 0;
        data := new char[IVY_BUFFER_SIZE];
      }
    }

    /** text is what fmt and its arguments spell. */
    method MakeMessage(conv: Convention, text: string) returns (n: nat, ghost attempts: nat)
      requires Valid()
      modifies this, data
      ensures Valid() && Allocated() && (data == old(data) || fresh(data))
      ensures n == |text|
      ensures Text() == old(Text()) + text
      ensures offset == old(|Text()|) + |text| < size && data[offset] == '\0'
      ensures (size, attempts) ==
        Grown(conv, if old(Allocated()) then old(size) else 4096, old(|Text()|), |text|)
    {
      hide Image, Grown, Returned, Overwritten, Trying;
      Allocate();
      ghost var before, size0 := Text(), size;
      attempts := 0;
      TryingStarts(conv, size, offset, |text|);
      while true
        invariant Valid() && Allocated() && (data == old(data) || fresh(data))
        invariant offset == |before| && Text() == before
        invariant offset < size0 && Trying(conv, size0, size, offset, |text|, attempts)
        decreases offset + |text| + 1 - size
      {
        TryingStep(conv, size0, size, offset, |text|, attempts);
        ghost var s, room := data[..], size - offset;
        AttemptKeeps(s, offset, Image(conv, text, room));
        var written := Vsnprintf(conv, data, offset, size - offset, text);
        attempts := attempts + 1;
        if written > -1 && written < size - offset {
          AttemptAppends(conv, s, offset, room, text);
          offset := offset + written;
          return written, attempts;
        }
        Enlarge(written);
      }
    }
  }
}
