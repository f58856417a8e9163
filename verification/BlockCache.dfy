/** BLOCK, UPDATE and EMPTY-BUFFERS of jsforth: a round-robin write-back cache of block
    buffers over the two writable drives, cookies and ram. */
module BlockCache {
  import opened BlockRuns

  type Memory = map<int, int>

  const BLOCK_SIZE := 1024
  const MAXCOOKIES := 4
  const BL := 32

  function CellAt(m: Memory, k: int): int {
    if k in m then m[k] else 0
  }

  /** The characters at a, as pack() makes a string of them and unpack() puts them back. */
  function Cells(m: Memory, a: int, n: nat): seq<int> {
    seq(n, i => CellAt(m, a + i))
  }

  predicate IsChar(c: int) {
    0 <= c < 0x1_0000
  }

  ghost predicate AllChars(s: seq<int>) {
    forall i :: 0 <= i < |s| ==> IsChar(s[i])
  }

  ghost predicate OutsideKept(m: Memory, m': Memory, lo: int, hi: int) {
    forall k :: k < lo || hi <= k ==> CellAt(m', k) == CellAt(m, k)
  }

  // ---- the drives ---------------------------------------------------------------------

  /** A block of the ram drive is sixteen lines, each padded with blanks to 64 characters. */
  type Lines = seq<seq<int>>

  function LineChar(line: seq<int>, j: nat): int {
    if j < |line| then line[j] else BL
  }

  function RamBlock(lines: Lines): seq<int>
    requires |lines| == 16
  {
    seq(BLOCK_SIZE, x requires 0 <= x < BLOCK_SIZE => LineChar(lines[x / 64], x % 64))
  }

  /** The cookie jar holds whole blocks; a block not in it is blank. */
  datatype Drives = Drives(cookies: map<int, seq<int>>, ramblock: seq<Lines>) {
    ghost predicate Valid() {
      && (forall k :: k in cookies ==> |cookies[k]| == BLOCK_SIZE && AllChars(cookies[k]))
      && (forall k :: 0 <= k < |ramblock| ==> |ramblock[k]| == 16)
      && (forall k, i :: 0 <= k < |ramblock| && 0 <= i < |ramblock[k]| ==> AllChars(ramblock[k][i]))
    }

    function Capacity(): nat {
      MAXCOOKIES + |ramblock|
    }

    function Block(k: int): seq<int>
      requires 0 <= k < Capacity()
      requires forall k :: 0 <= k < |ramblock| ==> |ramblock[k]| == 16
    {
      if k >= MAXCOOKIES then RamBlock(ramblock[k - MAXCOOKIES])
      else if k in cookies then cookies[k]
      else seq(BLOCK_SIZE, _ => BL)
    }
  }

  lemma BlocksAreChars(d: Drives, k: int)
    requires d.Valid() && 0 <= k < d.Capacity()
    ensures |d.Block(k)| == BLOCK_SIZE && AllChars(d.Block(k))
  {
    if k >= MAXCOOKIES {
      var lines := d.ramblock[k - MAXCOOKIES];
      forall x | 0 <= x < BLOCK_SIZE ensures IsChar(RamBlock(lines)[x]) {
        assert AllChars(lines[x / 64]);
      }
    }
  }

  /** pack(a, n): characters are cell values modulo 2^16. */
  method Pack(m: Memory, a: int, n: nat) returns (w: seq<int>)
    ensures |w| == n && AllChars(w)
    ensures forall i :: 0 <= i < n ==> w[i] == CellAt(m, a + i) % 0x1_0000
  {
    w := [];
    var i := 0;
    while i < n
      invariant 0 <= i <= n == |w| + (n - i)
      invariant AllChars(w) && forall j :: 0 <= j < i ==> w[j] == CellAt(m, a + j) % 0x1_0000
    {
      w := w + [CellAt(m, a + i) % 0x1_0000];
      i := i + 1;
    }
  }

  /** unpack ( x a -- n ): stores the string's characters from the last down. */
  method Unpack(m0: Memory, s: seq<int>, a: int) returns (m: Memory)
    ensures forall k :: a <= k < a + |s| ==> CellAt(m, k) == s[k - a]
    ensures OutsideKept(m0, m, a, a + |s|)
  {
    m := m0;
    var i := |s|;
    while i != 0
      invariant 0 <= i <= |s|
      invariant forall k :: a + i <= k < a + |s| ==> CellAt(m, k) == s[k - a]
      invariant OutsideKept(m0, m, a + i, a + |s|)
    {
      i := i - 1;
      ghost var m1 := m;
      m := m[a + i := s[i]];
      assert forall k :: k != a + i ==> CellAt(m, k) == CellAt(m1, k);
    }
  }

  /** loadblockfromram: each line over 64 blanks. */
  method LoadRam(m0: Memory, lines: Lines, a: int) returns (m: Memory)
    requires |lines| == 16
    ensures Cells(m, a, BLOCK_SIZE) == RamBlock(lines) && OutsideKept(m0, m, a, a + BLOCK_SIZE)
    ensures forall i, j :: 0 <= i < 16 && 0 <= j < 64 ==>
      CellAt(m, a + (64 * i + j)) == if j < |lines[i]| then lines[i][j] else ' ' as int
  {
    m := m0;
    var i := 0;
    while i < 16
      invariant 0 <= i <= 16
      invariant forall x :: 0 <= x < 64 * i ==> CellAt(m, a + x) == LineChar(lines[x / 64], x % 64)
      invariant OutsideKept(m0, m, a, a + 64 * i)
    {
      ghost var m1 := m;
      m := LoadLine(m, lines[i], a + 64 * i);
      LineLoaded(m1, m, lines, a, i);
      i := i + 1;
    }
    LinesLoaded(m, lines, a);
  }

  lemma LinesLoaded(m: Memory, lines: Lines, a: int)
    requires |lines| == 16 && forall x :: 0 <= x < BLOCK_SIZE ==> CellAt(m, a + x) == LineChar(lines[x / 64], x % 64)
    ensures forall i, j :: 0 <= i < 16 && 0 <= j < 64 ==>
      CellAt(m, a + (64 * i + j)) == if j < |lines[i]| then lines[i][j] else ' ' as int
  {
    forall i, j | 0 <= i < 16 && 0 <= j < 64
      ensures CellAt(m, a + (64 * i + j)) == if j < |lines[i]| then lines[i][j] else ' ' as int
    {
      var x := 64 * i + j;
      assert x / 64 == i && x % 64 == j;
      assert CellAt(m, a + x) == LineChar(lines[x / 64], x % 64);
    }
  }

  method LoadLine(m0: Memory, line: seq<int>, a: int) returns (m: Memory)
    ensures forall k :: a <= k < a + 64 ==> CellAt(m, k) == LineChar(line, k - a)
    ensures OutsideKept(m0, m, a, a + 64)
  {
    m := Unpack(m0, seq(64, _ => BL), a);
    m := Unpack(m, if |line| < 64 then line else line[..64], a);
  }

  lemma LineLoaded(m: Memory, m': Memory, lines: Lines, a: int, i: nat)
    requires |lines| == 16 && i < 16
    requires forall x :: 0 <= x < 64 * i ==> CellAt(m, a + x) == LineChar(lines[x / 64], x % 64)
    requires forall k :: a + 64 * i <= k < a + 64 * i + 64 ==> CellAt(m', k) == LineChar(lines[i], k - (a + 64 * i))
    requires OutsideKept(m, m', a + 64 * i, a + 64 * i + 64)
    ensures forall x :: 0 <= x < 64 * (i + 1) ==> CellAt(m', a + x) == LineChar(lines[x / 64], x % 64)
  {
    forall x | 0 <= x < 64 * (i + 1) ensures CellAt(m', a + x) == LineChar(lines[x / 64], x % 64) {
      if x >= 64 * i {
        assert x / 64 == i && x % 64 == x - 64 * i;
        assert CellAt(m', a + x) == LineChar(lines[i], x - 64 * i);
      } else {
        assert CellAt(m', a + x) == CellAt(m, a + x);
      }
    }
  }

  /** savebuftoram: sixteen lines of 64 characters each. */
  method SaveRam(m: Memory, a: int) returns (lines: Lines)
    ensures |lines| == 16 && forall i :: 0 <= i < 16 ==> |lines[i]| == 64 && AllChars(lines[i])
    ensures forall i, j :: 0 <= i < 16 && 0 <= j < 64 ==> lines[i][j] == CellAt(m, a + 64 * i + j) % 0x1_0000
    ensures AllChars(Cells(m, a, BLOCK_SIZE)) ==> RamBlock(lines) == Cells(m, a, BLOCK_SIZE)
  {
    lines := [];
    var i := 0;
    while i < 16
      invariant 0 <= i <= 16 && |lines| == i
      invariant forall k :: 0 <= k < i ==> |lines[k]| == 64 && AllChars(lines[k])
      invariant forall k, j :: 0 <= k < i && 0 <= j < 64 ==> lines[k][j] == CellAt(m, a + 64 * k + j) % 0x1_0000
    {
      var line := Pack(m, a + 64 * i, 64);
      lines := lines + [line];
      i := i + 1;
    }
    if AllChars(Cells(m, a, BLOCK_SIZE)) {
      forall x | 0 <= x < BLOCK_SIZE ensures RamBlock(lines)[x] == Cells(m, a, BLOCK_SIZE)[x] {
        assert lines[x / 64][x % 64] == CellAt(m, a + 64 * (x / 64) + x % 64) % 0x1_0000;
        assert IsChar(Cells(m, a, BLOCK_SIZE)[x]);
      }
    }
  }

  // ---- the cache ------------------------------------------------------------------------

  /** Which block each buffer holds, and where each block is buffered; -1 for neither. */
  ghost predicate Inverse(bufblk: seq<int>, blockstat: seq<int>) {
    && (forall i :: 0 <= i < |bufblk| ==> -1 <= bufblk[i] < |blockstat| && (bufblk[i] >= 0 ==> blockstat[bufblk[i]] == i))
    && (forall k :: 0 <= k < |blockstat| ==> -1 <= blockstat[k] < |bufblk| && (blockstat[k] >= 0 ==> bufblk[blockstat[k]] == k))
  }

  /** The buffers do not overlap. */
  ghost predicate Separate(buf: seq<int>) {
    forall i, j :: 0 <= i < |buf| && 0 <= j < |buf| && i != j ==> buf[i] + BLOCK_SIZE <= buf[j] || buf[j] + BLOCK_SIZE <= buf[i]
  }

  /** Every mapped buffer holds characters, and unless dirty it holds what its drive does. */
  ghost predicate Faithful(m: Memory, drives: Drives, buf: seq<int>, bufdirty: seq<int>, bufblk: seq<int>)
    requires |buf| == |bufdirty| == |bufblk| && drives.Valid()
    requires forall i :: 0 <= i < |bufblk| ==> bufblk[i] < drives.Capacity()
  {
    forall i :: 0 <= i < |buf| && bufblk[i] >= 0 ==>
      && AllChars(Cells(m, buf[i], BLOCK_SIZE))
      && (bufdirty[i] == 0 ==> Cells(m, buf[i], BLOCK_SIZE) == drives.Block(bufblk[i]))
  }

  lemma CellsKept(m: Memory, m': Memory, a: int, lo: int, hi: int)
    requires OutsideKept(m, m', lo, hi) && (a + BLOCK_SIZE <= lo || hi <= a)
    ensures Cells(m', a, BLOCK_SIZE) == Cells(m, a, BLOCK_SIZE)
  {}

  ghost predicate ShapedState(drives: Drives, buf: seq<int>, bufdirty: seq<int>, bufblk: seq<int>, blockstat: seq<int>) {
    && |buf| == |bufdirty| == |bufblk| > 0 && Separate(buf)
    && drives.Valid() && |blockstat| == drives.Capacity()
    && Inverse(bufblk, blockstat)
  }

  /** What a program sees of block k: the buffer that holds it, else the drive. */
  ghost function ViewOf(m: Memory, drives: Drives, buf: seq<int>, bufdirty: seq<int>, bufblk: seq<int>, blockstat: seq<int>, k: int): seq<int>
    requires ShapedState(drives, buf, bufdirty, bufblk, blockstat) && 0 <= k < |blockstat|
  {
    if blockstat[k] >= 0 then Cells(m, buf[blockstat[k]], BLOCK_SIZE) else drives.Block(k)
  }

  /** All the blocks, as a program sees them. */
  ghost function Seen(m: Memory, drives: Drives, buf: seq<int>, bufdirty: seq<int>, bufblk: seq<int>, blockstat: seq<int>): (s: seq<seq<int>>)
    requires ShapedState(drives, buf, bufdirty, bufblk, blockstat)
    ensures |s| == |blockstat|
  {
    seq(|blockstat|, k requires 0 <= k < |blockstat| => ViewOf(m, drives, buf, bufdirty, bufblk, blockstat, k))
  }

  /** All the blocks, as the drives hold them. */
  ghost function OnDrives(drives: Drives): seq<seq<int>>
    requires drives.Valid()
  {
    seq(drives.Capacity(), k requires 0 <= k < drives.Capacity() => drives.Block(k))
  }

  /** Mapping block u to a buffer that is clean or empty, once loaded: the block it held goes
      back to being seen on its drive, and u is seen in the buffer, both as before. */
  lemma Remapped(m: Memory, m': Memory, drives: Drives, buf: seq<int>, bufdirty: seq<int>, bufblk: seq<int>,
                 blockstat: seq<int>, b: int, u: int)
    requires ShapedState(drives, buf, bufdirty, bufblk, blockstat) && Faithful(m, drives, buf, bufdirty, bufblk)
    requires 0 <= b < |buf| && 0 <= u < |blockstat| && blockstat[u] == -1
    requires bufblk[b] >= 0 ==> bufdirty[b] == 0
    requires Cells(m', buf[b], BLOCK_SIZE) == drives.Block(u) && OutsideKept(m, m', buf[b], buf[b] + BLOCK_SIZE)
    ensures
      var bs := (if bufblk[b] >= 0 then blockstat[bufblk[b] := -1] else blockstat)[u := b];
      && ShapedState(drives, buf, bufdirty, bufblk[b := u], bs) && Faithful(m', drives, buf, bufdirty, bufblk[b := u])
      && Seen(m', drives, buf, bufdirty, bufblk[b := u], bs) == Seen(m, drives, buf, bufdirty, bufblk, blockstat)
      && Seen(m, drives, buf, bufdirty, bufblk, blockstat)[u] == drives.Block(u)
  {
    hide ShapedState, Faithful, Seen, Cells;
    RemappedShape(drives, buf, bufdirty, bufblk, blockstat, b, u);
    RemappedFaithful(m, m', drives, buf, bufdirty, bufblk, blockstat, b, u);
    RemappedSeen(m, m', drives, buf, bufdirty, bufblk, blockstat, b, u);
  }

  /** The block number table once buffer b holds u. */
  function Mapped(bufblk: seq<int>, blockstat: seq<int>, b: int, u: int): seq<int>
    requires 0 <= b < |bufblk| && -1 <= bufblk[b] < |blockstat| && 0 <= u < |blockstat|
  {
    (if bufblk[b] >= 0 then blockstat[bufblk[b] := -1] else blockstat)[u := b]
  }

  lemma RemappedShape(drives: Drives, buf: seq<int>, bufdirty: seq<int>, bufblk: seq<int>, blockstat: seq<int>, b: int, u: int)
    requires ShapedState(drives, buf, bufdirty, bufblk, blockstat)
    requires 0 <= b < |buf| && 0 <= u < |blockstat| && blockstat[u] == -1
    ensures |buf| == |bufdirty| == |bufblk| && -1 <= bufblk[b] < |blockstat|
    ensures ShapedState(drives, buf, bufdirty, bufblk[b := u], Mapped(bufblk, blockstat, b, u))
  {
    hide Separate;
    assert Inverse(bufblk[b := u], Mapped(bufblk, blockstat, b, u));
  }

  lemma OthersKept(m: Memory, m': Memory, buf: seq<int>, b: int)
    requires Separate(buf) && 0 <= b < |buf| && OutsideKept(m, m', buf[b], buf[b] + BLOCK_SIZE)
    ensures forall i :: 0 <= i < |buf| && i != b ==> Cells(m', buf[i], BLOCK_SIZE) == Cells(m, buf[i], BLOCK_SIZE)
  {
    hide Cells, OutsideKept;
    forall i | 0 <= i < |buf| && i != b ensures Cells(m', buf[i], BLOCK_SIZE) == Cells(m, buf[i], BLOCK_SIZE) {
      CellsKept(m, m', buf[i], buf[b], buf[b] + BLOCK_SIZE);
    }
  }

  lemma RemappedFaithful(m: Memory, m': Memory, drives: Drives, buf: seq<int>, bufdirty: seq<int>, bufblk: seq<int>,
                         blockstat: seq<int>, b: int, u: int)
    requires ShapedState(drives, buf, bufdirty, bufblk, blockstat) && Faithful(m, drives, buf, bufdirty, bufblk)
    requires 0 <= b < |buf| && 0 <= u < |blockstat| && blockstat[u] == -1
    requires Cells(m', buf[b], BLOCK_SIZE) == drives.Block(u) && OutsideKept(m, m', buf[b], buf[b] + BLOCK_SIZE)
    ensures Faithful(m', drives, buf, bufdirty, bufblk[b := u])
  {
    BlocksAreChars(drives, u);
    OthersKept(m, m', buf, b);
    hide Cells, Separate, AllChars;
  }

  lemma RemappedSeen(m: Memory, m': Memory, drives: Drives, buf: seq<int>, bufdirty: seq<int>, bufblk: seq<int>,
                     blockstat: seq<int>, b: int, u: int)
    requires ShapedState(drives, buf, bufdirty, bufblk, blockstat) && Faithful(m, drives, buf, bufdirty, bufblk)
    requires 0 <= b < |buf| && 0 <= u < |blockstat| && blockstat[u] == -1
    requires bufblk[b] >= 0 ==> bufdirty[b] == 0
    requires Cells(m', buf[b], BLOCK_SIZE) == drives.Block(u) && OutsideKept(m, m', buf[b], buf[b] + BLOCK_SIZE)
    requires ShapedState(drives, buf, bufdirty, bufblk[b := u], Mapped(bufblk, blockstat, b, u))
    ensures Seen(m', drives, buf, bufdirty, bufblk[b := u], Mapped(bufblk, blockstat, b, u))
         == Seen(m, drives, buf, bufdirty, bufblk, blockstat)
    ensures Seen(m, drives, buf, bufdirty, bufblk, blockstat)[u] == drives.Block(u)
  {
    hide Cells, AllChars;
    var bb, bs := bufblk[b := u], Mapped(bufblk, blockstat, b, u);
    OthersKept(m, m', buf, b);
    forall k | 0 <= k < |blockstat|
      ensures ViewOf(m', drives, buf, bufdirty, bb, bs, k) == ViewOf(m, drives, buf, bufdirty, bufblk, blockstat, k)
    {
      if k != u && k != bufblk[b] {
        assert bs[k] == blockstat[k];
      }
    }
  }

  lemma Shapes(drives: Drives, buf: seq<int>, bufdirty: seq<int>, bufblk: seq<int>, blockstat: seq<int>)
    requires ShapedState(drives, buf, bufdirty, bufblk, blockstat)
    ensures |buf| == |bufdirty| == |bufblk| > 0 && drives.Valid() && |blockstat| == drives.Capacity()
    ensures forall i :: 0 <= i < |bufblk| ==> -1 <= bufblk[i] < |blockstat|
    ensures forall k :: 0 <= k < |blockstat| ==> -1 <= blockstat[k] < |buf|
  {}

  lemma SeenInBuffer(m: Memory, drives: Drives, buf: seq<int>, bufdirty: seq<int>, bufblk: seq<int>, blockstat: seq<int>, k: int)
    requires ShapedState(drives, buf, bufdirty, bufblk, blockstat) && 0 <= k < |blockstat| && blockstat[k] >= 0
    ensures bufblk[blockstat[k]] == k
    ensures Seen(m, drives, buf, bufdirty, bufblk, blockstat)[k] == Cells(m, buf[blockstat[k]], BLOCK_SIZE)
  {}

  lemma MappedChars(m: Memory, drives: Drives, buf: seq<int>, bufdirty: seq<int>, bufblk: seq<int>, b: int)
    requires |buf| == |bufdirty| == |bufblk| && drives.Valid()
    requires forall i :: 0 <= i < |bufblk| ==> bufblk[i] < drives.Capacity()
    requires Faithful(m, drives, buf, bufdirty, bufblk) && 0 <= b < |buf| && bufblk[b] >= 0
    ensures AllChars(Cells(m, buf[b], BLOCK_SIZE))
  {}

  lemma Packed(m: Memory, a: int, s: seq<int>)
    requires AllChars(Cells(m, a, BLOCK_SIZE)) && |s| == BLOCK_SIZE
    requires forall i :: 0 <= i < BLOCK_SIZE ==> s[i] == CellAt(m, a + i) % 0x1_0000
    ensures s == Cells(m, a, BLOCK_SIZE)
  {
    forall i | 0 <= i < BLOCK_SIZE ensures s[i] == CellAt(m, a + i) {
      assert IsChar(Cells(m, a, BLOCK_SIZE)[i]);
    }
  }

  lemma CookieSaved(d: Drives, k: int, s: seq<int>)
    requires d.Valid() && 0 <= k < MAXCOOKIES && |s| == BLOCK_SIZE && AllChars(s)
    ensures
      var d' := d.(cookies := d.cookies[k := s]);
      d'.Valid() && d'.Capacity() == d.Capacity() && OnDrives(d') == OnDrives(d)[k := s]
  {}

  lemma RamSaved(d: Drives, k: int, lines: Lines)
    requires d.Valid() && MAXCOOKIES <= k < d.Capacity() && |lines| == 16 && forall i :: 0 <= i < 16 ==> AllChars(lines[i])
    ensures
      var d' := d.(ramblock := d.ramblock[k - MAXCOOKIES := lines]);
      d'.Valid() && d'.Capacity() == d.Capacity() && OnDrives(d') == OnDrives(d)[k := RamBlock(lines)]
  {}

  /** Writing a buffer back to its drive. */
  lemma Saved(m: Memory, d: Drives, d': Drives, buf: seq<int>, bufdirty: seq<int>, bufblk: seq<int>, blockstat: seq<int>, b: int)
    requires ShapedState(d, buf, bufdirty, bufblk, blockstat) && Faithful(m, d, buf, bufdirty, bufblk)
    requires 0 <= b < |buf| && bufblk[b] >= 0 && d'.Valid() && d'.Capacity() == d.Capacity()
    requires OnDrives(d') == OnDrives(d)[bufblk[b] := Cells(m, buf[b], BLOCK_SIZE)]
    ensures ShapedState(d', buf, bufdirty[b := 0], bufblk, blockstat) && Faithful(m, d', buf, bufdirty[b := 0], bufblk)
    ensures Seen(m, d', buf, bufdirty[b := 0], bufblk, blockstat) == Seen(m, d, buf, bufdirty, bufblk, blockstat)
  {
    forall k | 0 <= k < d.Capacity()
      ensures d'.Block(k) == if k == bufblk[b] then Cells(m, buf[b], BLOCK_SIZE) else d.Block(k)
    {
      assert OnDrives(d')[k] == d'.Block(k) && OnDrives(d)[k] == d.Block(k);
    }
  }

  class Cache {
    var m: Memory
    var drives: Drives
    const buf: seq<int>
    var bufdirty: seq<int>
    var bufblk: seq<int>
    var blockstat: seq<int>
    var nextbuf: int
    var hotbuffer: int

    ghost predicate Shaped()
      reads this
    {
      ShapedState(drives, buf, bufdirty, bufblk, blockstat) && 0 <= nextbuf < |buf|
    }

    ghost predicate Valid()
      reads this
    {
      Shaped() && Faithful(m, drives, buf, bufdirty, bufblk)
    }

    ghost function Blocks(): (s: seq<seq<int>>)
      requires Shaped()
      ensures |s| == |blockstat|
      reads this
    {
      Seen(m, drives, buf, bufdirty, bufblk, blockstat)
    }

    /** Blocks, drives and buffers, apart from memory. */
    ghost function Now(): (s: Layers)
      requires Shaped()
      ensures Sized(s)
      reads this
    {
      Layers(Blocks(), OnDrives(drives), bufblk, bufdirty, nextbuf)
    }

    constructor (m: Memory, drives: Drives, buf: seq<int>)
      requires drives.Valid() && |buf| > 0 && Separate(buf)
      ensures Valid() && this.m == m && this.drives == drives && this.buf == buf
      ensures Blocks() == OnDrives(drives) && Honest(Now())
    {
      this.m, this.drives, this.buf := m, drives, buf;
      bufdirty, bufblk := seq(|buf|, _ => 0), seq(|buf|, _ => -1);
      blockstat := seq(MAXCOOKIES + |drives.ramblock|, _ => -1);
      nextbuf, hotbuffer := 0, 0;
    }

    /** savebuf: the drive now holds what the buffer does, and no other block changes. */
    method SaveBuf(b: nat)
      requires Valid() && b < |buf| && bufblk[b] >= 0
      modifies `drives, `bufdirty
      ensures Valid() && bufdirty == old(bufdirty)[b := 0] && Blocks() == old(Blocks())
      ensures OnDrives(drives) == old(OnDrives(drives))[bufblk[b] := Cells(m, buf[b], BLOCK_SIZE)]
    {
      hide ShapedState, Faithful, Seen, OnDrives, AllChars;
      Shapes(drives, buf, bufdirty, bufblk, blockstat);
      var blknum := bufblk[b];
      MappedChars(m, drives, buf, bufdirty, bufblk, b);
      ghost var d, dirty := drives, bufdirty;
      if blknum < MAXCOOKIES {
        var s := Pack(m, buf[b], BLOCK_SIZE);
        Packed(m, buf[b], s);
        CookieSaved(d, blknum, s);
        drives := drives.(cookies := drives.cookies[blknum := s]);
      } else {
        var lines := SaveRam(m, buf[b]);
        RamSaved(d, blknum, lines);
        drives := drives.(ramblock := drives.ramblock[blknum - MAXCOOKIES := lines]);
      }
      bufdirty := bufdirty[b := 0];
      Saved(m, d, drives, buf, dirty, bufblk, blockstat, b);
    }

    /** loadblock from the drive the block is on. */
    method LoadBlock(blknum: nat, a: int)
      requires drives.Valid() && blknum < drives.Capacity()
      modifies `m
      ensures Cells(m, a, BLOCK_SIZE) == drives.Block(blknum)
      ensures OutsideKept(old(m), m, a, a + BLOCK_SIZE)
    {
      if blknum < MAXCOOKIES {
        if blknum in drives.cookies {
          m := Unpack(m, drives.cookies[blknum], a);
        } else {
          m := Unpack(m, seq(BLOCK_SIZE, _ => BL), a);
        }
      } else {
        m := LoadRam(m, drives.ramblock[blknum - MAXCOOKIES], a);
      }
    }

    /** A dirty buffer is written back; nothing looks different. */
    method Clean(b: nat)
      requires Valid() && b < |buf| && bufblk[b] >= 0
      modifies `drives, `bufdirty
      ensures Valid() && bufdirty[b] == 0 && Now() == Flushed(old(Now()), b)
    {
      hide ShapedState, Faithful, Seen, OnDrives, Cells;
      Shapes(drives, buf, bufdirty, bufblk, blockstat);
      HeldSeen(m, drives, buf, bufdirty, bufblk, blockstat, b);
      if bufdirty[b] != 0 {
        SaveBuf(b);
      }
    }

    /** BLOCK ( u -- a ): the block is in the hot buffer, and no block looks different; the
        drives change only by what eviction writes back. */
    method Block(u: nat) returns (a: int)
      requires Valid() && u < |blockstat|
      modifies this
      ensures Valid() && |blockstat| == old(|blockstat|)
      ensures 0 <= hotbuffer < |buf| && bufblk[hotbuffer] == u && a == buf[hotbuffer] && hotbuffer == Holder(bufblk, u)
      ensures Cells(m, a, BLOCK_SIZE) == old(Blocks())[u]
      ensures Blocks() == old(Blocks()) && Now() == Fetched(old(Now()), u)
    {
      hide ShapedState, Faithful, Seen, Cells, OnDrives, Flushed;
      Shapes(drives, buf, bufdirty, bufblk, blockstat);
      HolderIs(drives, buf, bufdirty, bufblk, blockstat, u);
      if blockstat[u] >= 0 {
        SeenInBuffer(m, drives, buf, bufdirty, bufblk, blockstat, u);
        hotbuffer := blockstat[u];
        a := buf[hotbuffer];
      } else {
        a := BufferFor(u);
        HolderIs(drives, buf, bufdirty, bufblk, blockstat, u);
      }
    }

    /** The next buffer in turn, written back if dirty, takes the block. */
    method BufferFor(u: nat) returns (a: int)
      requires Valid() && u < |blockstat| && blockstat[u] < 0 && u !in bufblk
      modifies this
      ensures Valid() && |blockstat| == old(|blockstat|)
      ensures 0 <= hotbuffer < |buf| && bufblk[hotbuffer] == u && a == buf[hotbuffer]
      ensures blockstat[u] == hotbuffer == nextbuf == if old(nextbuf) + 1 == |buf| then 0 else old(nextbuf) + 1
      ensures Cells(m, a, BLOCK_SIZE) == old(Blocks())[u]
      ensures Blocks() == old(Blocks()) && Now() == Fetched(old(Now()), u)
    {
      hide ShapedState, Faithful, Seen, Cells, InTurn, OnDrives;
      Shapes(drives, buf, bufdirty, bufblk, blockstat);
      nextbuf := InTurn(nextbuf, |buf|);
      if bufblk[nextbuf] >= 0 {
        Clean(nextbuf);
      }
      a := TakeBuffer(u);
    }

    /** The buffer, clean or empty, is loaded with the block and mapped to it. */
    method TakeBuffer(u: nat) returns (a: int)
      requires Valid() && u < |blockstat| && blockstat[u] == -1
      requires bufblk[nextbuf] >= 0 ==> bufdirty[nextbuf] == 0
      modifies `m, `hotbuffer, `bufblk, `blockstat
      ensures Valid() && |blockstat| == old(|blockstat|)
      ensures hotbuffer == nextbuf == blockstat[u] && bufblk == old(bufblk)[nextbuf := u] && a == buf[nextbuf]
      ensures Cells(m, a, BLOCK_SIZE) == old(Blocks())[u] && Blocks() == old(Blocks())
    {
      hide ShapedState, Faithful, Seen, Cells, OnDrives;
      ghost var m0 := m;
      Shapes(drives, buf, bufdirty, bufblk, blockstat);
      LoadBlock(u, buf[nextbuf]);
      Remapped(m0, m, drives, buf, bufdirty, bufblk, blockstat, nextbuf, u);
      if bufblk[nextbuf] >= 0 {
        blockstat := blockstat[bufblk[nextbuf] := -1];
      }
      a := buf[nextbuf];
      hotbuffer := nextbuf;
      bufblk := bufblk[nextbuf := u];
      blockstat := blockstat[u := nextbuf];
    }

    /** UPDATE marks the buffer BLOCK returned last. */
    method Update()
      requires Shaped() && 0 <= hotbuffer < |buf|
      modifies `bufdirty
      ensures Shaped() && bufdirty == old(bufdirty)[hotbuffer := -1] && Blocks() == old(Blocks())
      ensures old(Valid()) ==> Valid()
    {
      bufdirty := bufdirty[hotbuffer := -1];
    }

    /** Storing a character in the buffer BLOCK returned last, then UPDATE. */
    method StoreAndUpdate(j: nat, c: int)
      requires Valid() && 0 <= hotbuffer < |buf| && bufblk[hotbuffer] >= 0
      requires j < BLOCK_SIZE && IsChar(c)
      modifies `m, `bufdirty
      ensures Valid()
      ensures var u := bufblk[hotbuffer];
        u < |old(Blocks())| && j < |old(Blocks())[u]| && Blocks() == old(Blocks())[u := old(Blocks())[u][j := c]]
      ensures drives == old(drives) && bufdirty == old(bufdirty)[hotbuffer := -1]
    {
      hide ShapedState, Faithful, Seen, Cells, IsChar;
      Shapes(drives, buf, bufdirty, bufblk, blockstat);
      Stored(m, drives, buf, bufdirty, bufblk, blockstat, hotbuffer, j, c);
      m := m[buf[hotbuffer] + j := c];
      Update();
    }

    /** EMPTY-BUFFERS: every block is again what its drive holds; unwritten changes are gone. */
    method EmptyBuffers()
      requires Valid()
      modifies `bufblk, `blockstat, `bufdirty
      ensures Valid() && |blockstat| == old(|blockstat|)
      ensures Blocks() == OnDrives(drives) && Now() == Emptied(old(Now()))
    {
      hide ShapedState, Faithful, Seen, OnDrives;
      Shapes(drives, buf, bufdirty, bufblk, blockstat);
      ghost var held, dirty := bufblk, bufdirty;
      var i := 0;
      while i < |buf|
        invariant 0 <= i <= |buf| == |bufblk| && |blockstat| == old(|blockstat|) && Valid()
        invariant |held| == |dirty| == |bufdirty| == |buf|
        invariant forall j :: 0 <= j < i ==> bufblk[j] == -1 && bufdirty[j] == if held[j] >= 0 then 0 else dirty[j]
        invariant forall j :: i <= j < |buf| ==> bufblk[j] == held[j] && bufdirty[j] == dirty[j]
      {
        Shapes(drives, buf, bufdirty, bufblk, blockstat);
        if bufblk[i] >= 0 {
          Unmapped(m, drives, buf, bufdirty, bufblk, blockstat, i);
          blockstat := blockstat[bufblk[i] := -1];
          bufblk := bufblk[i := -1];
          bufdirty := bufdirty[i := 0];
        }
        i := i + 1;
      }
      Shapes(drives, buf, bufdirty, bufblk, blockstat);
      NoneMapped(m, drives, buf, bufdirty, bufblk, blockstat);
    }

    /** Any run of reads, updating writes and EMPTY-BUFFERS does to the blocks, the drives and the
        buffers what the run of layers does, and the reads return what it returns. */
    method Perform(ops: seq<Operation>) returns (got: seq<seq<int>>)
      requires Valid() && forall op :: op in ops ==> Possible(op, |blockstat|)
      modifies this
      ensures Valid() && |blockstat| == old(|blockstat|)
      ensures Now() == Run(old(Now()), ops) && got == Reads(old(Now()), ops)
      ensures Honest(old(Now())) && Honest(Now())
    {
      hide ShapedState, Faithful, Seen, Cells, OnDrives, Reads, Run, Fetched, Emptied, Holder, Honest;
      got := [];
      var i := 0;
      CacheHonest(m, drives, buf, bufdirty, bufblk, blockstat, nextbuf);
      ghost var start := Now();
      NoSteps(start, ops);
      while i < |ops|
        invariant 0 <= i <= |ops| && Valid() && |blockstat| == old(|blockstat|)
        invariant Now() == Run(start, ops[..i]) && got == Reads(start, ops[..i])
      {
        RunStep(start, ops, i);
        assert Possible(ops[i], |blockstat|);
        var s := PerformOne(ops[i]);
        got := got + s;
        i := i + 1;
      }
      assert ops[..|ops|] == ops;
      CacheHonest(m, drives, buf, bufdirty, bufblk, blockstat, nextbuf);
    }

    /** One operation, and what it reads. */
    method PerformOne(op: Operation) returns (got: seq<seq<int>>)
      requires Valid() && Possible(op, |blockstat|)
      modifies this
      ensures Valid() && |blockstat| == old(|blockstat|)
      ensures Now() == Step(old(Now()), op)
      ensures got == match op case Read(u) => [old(Blocks())[u]] case _ => []
    {
      hide ShapedState, Faithful, Seen, Cells, OnDrives, Fetched, Emptied, Holder;
      got := [];
      match op
      case Read(u) =>
        var a := Block(u);
        var s := ReadOut(a);
        got := [s];
      case Write(u, j, c) =>
        var _ := Block(u);
        StoreAndUpdate(j, c);
      case Empty => EmptyBuffers();
    }

    method ReadOut(a: int) returns (s: seq<int>)
      ensures s == Cells(m, a, BLOCK_SIZE)
    {
      s := [];
      var i := 0;
      while i < BLOCK_SIZE
        invariant 0 <= i <= BLOCK_SIZE && s == Cells(m, a, i)
      {
        s := s + [CellAt(m, a + i)];
        i := i + 1;
      }
    }
  }

  lemma Stored(m: Memory, drives: Drives, buf: seq<int>, bufdirty: seq<int>, bufblk: seq<int>, blockstat: seq<int>, b: int, j: nat, c: int)
    requires ShapedState(drives, buf, bufdirty, bufblk, blockstat) && Faithful(m, drives, buf, bufdirty, bufblk)
    requires 0 <= b < |buf| && 0 <= bufblk[b] < |blockstat| && j < BLOCK_SIZE && IsChar(c)
    ensures
      var m', dirty, u := m[buf[b] + j := c], bufdirty[b := -1], bufblk[b];
      var s := Seen(m, drives, buf, bufdirty, bufblk, blockstat);
      && ShapedState(drives, buf, dirty, bufblk, blockstat) && Faithful(m', drives, buf, dirty, bufblk)
      && |s[u]| == BLOCK_SIZE && Seen(m', drives, buf, dirty, bufblk, blockstat) == s[u := s[u][j := c]]
  {
    var m', dirty := m[buf[b] + j := c], bufdirty[b := -1];
    forall i | 0 <= i < |buf| && i != b ensures Cells(m', buf[i], BLOCK_SIZE) == Cells(m, buf[i], BLOCK_SIZE) {
      CellsKept(m, m', buf[i], buf[b], buf[b] + BLOCK_SIZE);
    }
    CellStored(m, buf[b], j, c);
    assert ShapedState(drives, buf, dirty, bufblk, blockstat);
  }

  lemma CellStored(m: Memory, a: int, j: nat, c: int)
    requires j < BLOCK_SIZE
    ensures Cells(m[a + j := c], a, BLOCK_SIZE) == Cells(m, a, BLOCK_SIZE)[j := c]
  {
    var s, t := Cells(m[a + j := c], a, BLOCK_SIZE), Cells(m, a, BLOCK_SIZE)[j := c];
    forall i | 0 <= i < BLOCK_SIZE ensures s[i] == t[i] {
      assert s[i] == CellAt(m[a + j := c], a + i);
    }
  }

  lemma Unmapped(m: Memory, drives: Drives, buf: seq<int>, bufdirty: seq<int>, bufblk: seq<int>, blockstat: seq<int>, b: int)
    requires ShapedState(drives, buf, bufdirty, bufblk, blockstat) && Faithful(m, drives, buf, bufdirty, bufblk)
    requires 0 <= b < |buf| && 0 <= bufblk[b] < |blockstat|
    ensures ShapedState(drives, buf, bufdirty[b := 0], bufblk[b := -1], blockstat[bufblk[b] := -1])
    ensures Faithful(m, drives, buf, bufdirty[b := 0], bufblk[b := -1])
  {}

  lemma NoneMapped(m: Memory, drives: Drives, buf: seq<int>, bufdirty: seq<int>, bufblk: seq<int>, blockstat: seq<int>)
    requires ShapedState(drives, buf, bufdirty, bufblk, blockstat) && forall i :: 0 <= i < |bufblk| ==> bufblk[i] == -1
    ensures Seen(m, drives, buf, bufdirty, bufblk, blockstat) == OnDrives(drives)
  {
    forall k | 0 <= k < |blockstat| ensures blockstat[k] == -1 {
      assert -1 <= blockstat[k] < |bufblk|;
    }
  }

  // ---- between the cache and the layers ------------------------------------------------------

  predicate Possible(op: Operation, capacity: nat) {
    match op
    case Read(u) => u < capacity
    case Write(u, j, c) => u < capacity && j < BLOCK_SIZE && IsChar(c)
    case Empty => true
  }

  lemma HeldSeen(m: Memory, drives: Drives, buf: seq<int>, bufdirty: seq<int>, bufblk: seq<int>, blockstat: seq<int>, b: int)
    requires ShapedState(drives, buf, bufdirty, bufblk, blockstat) && 0 <= b < |bufblk| && bufblk[b] >= 0
    ensures b < |buf| && bufblk[b] < |blockstat|
    ensures Seen(m, drives, buf, bufdirty, bufblk, blockstat)[bufblk[b]] == Cells(m, buf[b], BLOCK_SIZE)
  {}

  lemma HolderIs(drives: Drives, buf: seq<int>, bufdirty: seq<int>, bufblk: seq<int>, blockstat: seq<int>, u: nat)
    requires ShapedState(drives, buf, bufdirty, bufblk, blockstat) && u < |blockstat|
    ensures u in bufblk <==> blockstat[u] >= 0
    ensures blockstat[u] == Holder(bufblk, u)
  {}

  /** Whatever is not on the drives is in a dirty buffer. */
  lemma CacheHonest(m: Memory, drives: Drives, buf: seq<int>, bufdirty: seq<int>, bufblk: seq<int>, blockstat: seq<int>, next: int)
    requires ShapedState(drives, buf, bufdirty, bufblk, blockstat) && Faithful(m, drives, buf, bufdirty, bufblk)
    ensures Honest(Layers(Seen(m, drives, buf, bufdirty, bufblk, blockstat), OnDrives(drives), bufblk, bufdirty, next))
  {
    hide Cells, AllChars, Separate;
    forall k | 0 <= k < |blockstat| && ViewOf(m, drives, buf, bufdirty, bufblk, blockstat, k) != drives.Block(k)
      ensures exists b :: 0 <= b < |bufblk| && bufblk[b] == k && bufdirty[b] != 0
    {
      assert bufblk[blockstat[k]] == k;
    }
  }

  lemma NoSteps(s: Layers, ops: seq<Operation>)
    requires Sized(s)
    ensures Run(s, ops[..0]) == s && Reads(s, ops[..0]) == []
  {}
}
