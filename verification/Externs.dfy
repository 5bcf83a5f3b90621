// Memory routines that work a machine word at a time.
module Externs {
  const WORD_SIZE: nat := 8

  type Byte = b: int | 0 <= b < 256

  /// Copying

  // The bytes at `src` copied to `dest`, all read before any is written.
  function Moved(s: seq<Byte>, dest: nat, src: nat, len: nat): (r: seq<Byte>)
    requires dest + len <= |s| && src + len <= |s|
    ensures |r| == |s|
    ensures forall k :: dest <= k < dest + len ==> r[k] == s[src + (k - dest)]
    ensures forall k :: 0 <= k < |s| && !(dest <= k < dest + len) ==> r[k] == s[k]
  {
    s[..dest] + s[src..src + len] + s[dest + len..]
  }

  // `cur` is `orig` with the bytes from `lo` to `hi` of the move from `src` to `dest` in place.
  ghost predicate Partly(cur: seq<Byte>, orig: seq<Byte>, dest: nat, src: nat, lo: nat, hi: nat) {
    && lo <= hi && dest + hi <= |orig| && src + hi <= |orig| && |cur| == |orig|
    && (forall k :: dest + lo <= k < dest + hi ==> cur[k] == orig[src + (k - dest)])
    && (forall k :: 0 <= k < |cur| && !(dest + lo <= k < dest + hi) ==> cur[k] == orig[k])
  }

  // The next `n` bytes upwards may go at once, for they were not overwritten.
  lemma StepForward(cur: seq<Byte>, orig: seq<Byte>, dest: nat, src: nat, i: nat, n: nat)
    requires Partly(cur, orig, dest, src, 0, i) && dest + i + n <= |orig| && src + i + n <= |orig|
    requires dest <= src || src + i + n <= dest
    ensures Partly(Moved(cur, dest + i, src + i, n), orig, dest, src, 0, i + n)
  {
  }

  // So may the next `n` bytes downwards.
  lemma StepBackward(cur: seq<Byte>, orig: seq<Byte>, dest: nat, src: nat, i: nat, n: nat, len: nat)
    requires n <= i && Partly(cur, orig, dest, src, i, len) && src < dest
    ensures Partly(Moved(cur, dest + (i - n), src + (i - n), n), orig, dest, src, i - n, len)
  {
  }

  // One unaligned word: read whole, then written.
  method CopyWord(mem: array<Byte>, dest: nat, src: nat)
    requires dest + WORD_SIZE <= mem.Length && src + WORD_SIZE <= mem.Length
    modifies mem
    ensures mem[..] == Moved(old(mem[..]), dest, src, WORD_SIZE)
  {
    var word := mem[src..src + WORD_SIZE];
    for j := 0 to WORD_SIZE
      invariant forall k :: dest <= k < dest + j ==> mem[k] == word[k - dest]
      invariant forall k :: 0 <= k < mem.Length && !(dest <= k < dest + j) ==> mem[k] == old(mem[k])
    {
      mem[dest + j] := word[j];
    }
  }

  method CopyByte(mem: array<Byte>, dest: nat, src: nat)
    requires dest < mem.Length && src < mem.Length
    modifies mem
    ensures mem[..] == Moved(old(mem[..]), dest, src, 1)
  {
    mem[dest] := mem[src];
  }

  // What `memcpy` does, and `memmove` towards lower addresses.
  method MoveForward(mem: array<Byte>, dest: nat, src: nat, len: nat)
    requires dest + len <= mem.Length && src + len <= mem.Length
    requires dest <= src || src + len <= dest
    modifies mem
    ensures mem[..] == Moved(old(mem[..]), dest, src, len)
  {
    hide Partly, Moved;
    ghost var orig := mem[..];
    StartMove(orig, dest, src, 0);
    var chunks := len / WORD_SIZE;
    var i := 0;
    while i < chunks * WORD_SIZE
      invariant i <= chunks * WORD_SIZE && i % WORD_SIZE == 0
      invariant Partly(mem[..], orig, dest, src, 0, i)
    {
      StepForward(mem[..], orig, dest, src, i, WORD_SIZE);
      CopyWord(mem, dest + i, src + i);
      i := i + WORD_SIZE;
    }
    while i < len
      invariant i <= len
      invariant Partly(mem[..], orig, dest, src, 0, i)
    {
      StepForward(mem[..], orig, dest, src, i, 1);
      CopyByte(mem, dest + i, src + i);
      i := i + 1;
    }
    EndMove(mem[..], orig, dest, src, len);
  }

  method MoveBackward(mem: array<Byte>, dest: nat, src: nat, len: nat)
    requires dest + len <= mem.Length && src + len <= mem.Length && src < dest
    modifies mem
    ensures mem[..] == Moved(old(mem[..]), dest, src, len)
  {
    hide Partly, Moved;
    ghost var orig := mem[..];
    StartMove(orig, dest, src, len);
    var chunks := len / WORD_SIZE;
    var i := len;
    while i != chunks * WORD_SIZE
      invariant chunks * WORD_SIZE <= i <= len
      invariant Partly(mem[..], orig, dest, src, i, len)
    {
      StepBackward(mem[..], orig, dest, src, i, 1, len);
      i := i - 1;
      CopyByte(mem, dest + i, src + i);
    }
    while i > 0
      invariant 0 <= i <= len && i % WORD_SIZE == 0
      invariant Partly(mem[..], orig, dest, src, i, len)
    {
      StepBackward(mem[..], orig, dest, src, i, WORD_SIZE, len);
      i := i - WORD_SIZE;
      CopyWord(mem, dest + i, src + i);
    }
    EndMove(mem[..], orig, dest, src, len);
  }

  lemma StartMove(orig: seq<Byte>, dest: nat, src: nat, i: nat)
    requires dest + i <= |orig| && src + i <= |orig|
    ensures Partly(orig, orig, dest, src, i, i)
  {
  }

  lemma EndMove(cur: seq<Byte>, orig: seq<Byte>, dest: nat, src: nat, len: nat)
    requires Partly(cur, orig, dest, src, 0, len)
    ensures cur == Moved(orig, dest, src, len)
  {
  }

  // For every length and every overlap, the destination gets what the source held, and nothing else changes.
  method Memmove(mem: array<Byte>, dest: nat, src: nat, len: nat)
    requires dest + len <= mem.Length && src + len <= mem.Length
    modifies mem
    ensures mem[..] == Moved(old(mem[..]), dest, src, len)
  {
    if src < dest {
      MoveBackward(mem, dest, src, len);
    } else {
      MoveForward(mem, dest, src, len);
    }
  }

  /// Comparing

  // Lexicographic order of two blocks, as the sign of the result.
  function Lex(a: seq<Byte>, b: seq<Byte>): (r: int)
    requires |a| == |b|
    ensures r == 0 <==> a == b
  {
    if a == [] then 0
    else if a[0] != b[0] then a[0] - b[0]
    else
      assert a == [a[0]] + a[1..] && b == [b[0]] + b[1..];
      Lex(a[1..], b[1..])
  }

  lemma {:induction false} LexJoin(a: seq<Byte>, b: seq<Byte>, i: nat)
    requires |a| == |b| && i <= |a|
    ensures Lex(a, b) == if a[..i] != b[..i] then Lex(a[..i], b[..i]) else Lex(a[i..], b[i..])
  {
    if i > 0 {
      assert a[..i] == [a[0]] + a[1..][..i - 1];
      assert b[..i] == [b[0]] + b[1..][..i - 1];
      if a[0] == b[0] {
        LexJoin(a[1..], b[1..], i - 1);
        assert a[1..][i - 1..] == a[i..] && b[1..][i - 1..] == b[i..];
        assert a[..i][1..] == a[1..][..i - 1] && b[..i][1..] == b[1..][..i - 1];
      }
    }
  }

  // A word read in big-endian order.
  function BigEndian(w: seq<Byte>): nat {
    if w == [] then 0 else BigEndian(w[..|w| - 1]) * 256 + w[|w| - 1]
  }

  function Sign(x: int): int {
    if x < 0 then -1 else if x > 0 then 1 else 0
  }

  // Big-endian words are ordered as their bytes are.
  lemma {:induction false} BigEndianOrder(a: seq<Byte>, b: seq<Byte>)
    requires |a| == |b|
    ensures Sign(BigEndian(a) - BigEndian(b)) == Sign(Lex(a, b))
  {
    if a != [] {
      var n := |a| - 1;
      BigEndianOrder(a[..n], b[..n]);
      LexJoin(a, b, n);
      assert a[n..] == [a[n]] && b[n..] == [b[n]];
      assert Lex(a[n..], b[n..]) == a[n] as int - b[n] as int;
      assert a == a[..n] + a[n..] && b == b[..n] + b[n..];
    }
  }

  const HALF: int := 0x8000_0000_0000_0000

  lemma BigEndianPush(w: seq<Byte>, k: nat)
    requires k < |w|
    ensures BigEndian(w[..k + 1]) == BigEndian(w[..k]) * 256 + w[k]
  {
    assert w[..k + 1][..k] == w[..k];
  }

  lemma BigEndianBound(w: seq<Byte>)
    requires |w| == WORD_SIZE
    ensures BigEndian(w) < 2 * HALF
  {
    assert w[..8] == w && BigEndian(w[..0]) == 0;
    BigEndianPush(w, 0); BigEndianPush(w, 1); BigEndianPush(w, 2); BigEndianPush(w, 3);
    BigEndianPush(w, 4); BigEndianPush(w, 5); BigEndianPush(w, 6); BigEndianPush(w, 7);
  }

  // Subtraction of two words, read as a signed number.
  function WrappingDiff(a: int, b: int): int {
    if a - b >= HALF then a - b - 2 * HALF else if a - b < -HALF then a - b + 2 * HALF else a - b
  }

  // By how much the first pair of different words differs; zero when all whole words agree.
  function Gap(a: seq<Byte>, b: seq<Byte>): int
    requires |a| == |b|
  {
    if |a| < WORD_SIZE then 0
    else if a[..WORD_SIZE] != b[..WORD_SIZE] then BigEndian(a[..WORD_SIZE]) - BigEndian(b[..WORD_SIZE])
    else Gap(a[WORD_SIZE..], b[WORD_SIZE..])
  }

  // Zero exactly for equal blocks; the sign is the lexicographic order exactly when the difference of the
  // words that decide it is at least minus half the range of a word and less than half of it.
  method Memcmp(a: seq<Byte>, b: seq<Byte>) returns (r: int)
    requires |a| == |b|
    ensures r == 0 <==> a == b
    ensures Sign(r) == Sign(Lex(a, b)) <==> -HALF <= Gap(a, b) < HALF
  {
    hide BigEndian, Lex;
    var len := |a|;
    var chunks := len / WORD_SIZE;
    var i := 0;
    while i < chunks * WORD_SIZE
      invariant i <= chunks * WORD_SIZE && i % WORD_SIZE == 0
      invariant a[..i] == b[..i] && Gap(a, b) == Gap(a[i..], b[i..])
    {
      var j := i + WORD_SIZE;
      var w, v := a[i..j], b[i..j];
      assert a[i..][..WORD_SIZE] == w && b[i..][..WORD_SIZE] == v;
      if w != v {
        DifferentWords(a, b, i);
        return Sign(WrappingDiff(BigEndian(w), BigEndian(v)));
      }
      assert a[..j] == a[..i] + w && b[..j] == b[..i] + v;
      assert a[i..][WORD_SIZE..] == a[j..] && b[i..][WORD_SIZE..] == b[j..];
      i := j;
    }
    while i < len
      invariant chunks * WORD_SIZE <= i <= len
      invariant a[..i] == b[..i] && Gap(a, b) == 0
    {
      if a[i] != b[i] {
        DifferentBytes(a, b, i);
        return a[i] as int - b[i] as int;
      }
      assert a[..i + 1] == a[..i] + [a[i]] && b[..i + 1] == b[..i] + [b[i]];
      i := i + 1;
    }
    assert a[..len] == a && b[..len] == b;
    return 0;
  }

  lemma DifferentBytes(a: seq<Byte>, b: seq<Byte>, i: nat)
    requires |a| == |b| && i < |a| && a[..i] == b[..i] && a[i] != b[i]
    ensures Lex(a, b) == a[i] as int - b[i] as int
  {
    LexJoin(a, b, i);
  }

  lemma DifferentWords(a: seq<Byte>, b: seq<Byte>, i: nat)
    requires |a| == |b| && i + WORD_SIZE <= |a| && a[..i] == b[..i]
    requires a[i..i + WORD_SIZE] != b[i..i + WORD_SIZE] && Gap(a, b) == Gap(a[i..], b[i..])
    ensures var w, v := a[i..i + WORD_SIZE], b[i..i + WORD_SIZE];
            && Gap(a, b) == BigEndian(w) - BigEndian(v) != 0
            && -2 * HALF < Gap(a, b) < 2 * HALF
            && Sign(Lex(a, b)) == Sign(Gap(a, b))
  {
    var w, v := a[i..i + WORD_SIZE], b[i..i + WORD_SIZE];
    LexJoin(a, b, i);
    LexJoin(a[i..], b[i..], WORD_SIZE);
    assert a[i..][..WORD_SIZE] == w && b[i..][..WORD_SIZE] == v;
    BigEndianOrder(w, v);
    BigEndianBound(w);
    BigEndianBound(v);
  }

  // The order is wrong, for instance, for words whose leading bytes are 255 and 0.
  lemma MemcmpMisorders()
    ensures var a: seq<Byte> := [255, 0, 0, 0, 0, 0, 0, 0];
            var b: seq<Byte> := [0, 0, 0, 0, 0, 0, 0, 0];
            Lex(a, b) > 0 && Gap(a, b) >= HALF && WrappingDiff(BigEndian(a), BigEndian(b)) < 0
  {
    var a: seq<Byte> := [255, 0, 0, 0, 0, 0, 0, 0];
    var b: seq<Byte> := [0, 0, 0, 0, 0, 0, 0, 0];
    assert a[..8] == a && b[..8] == b && a[0] != b[0];
    assert BigEndian(b) == 0 by { BigEndianShift(0); }
    assert BigEndian(a) == 255 * 0x100_0000_0000_0000 by { BigEndianShift(255); }
  }

  lemma BigEndianShift(x: Byte)
    ensures BigEndian([x, 0, 0, 0, 0, 0, 0, 0]) == x * 0x100_0000_0000_0000
  {
    var w: seq<Byte> := [x, 0, 0, 0, 0, 0, 0, 0];
    assert w[..8] == w && BigEndian(w[..0]) == 0;
    BigEndianPush(w, 0); BigEndianPush(w, 1); BigEndianPush(w, 2); BigEndianPush(w, 3);
    BigEndianPush(w, 4); BigEndianPush(w, 5); BigEndianPush(w, 6); BigEndianPush(w, 7);
  }
}
