/** From the bytes of a file to the words of a mapped page (kernel/paging.cpp, `PreparePageCache`; kernel/fat.cpp,
    `FileDescriptor::Load`). */
module MappedFiles {
  import opened Basics
  import opened PageTables
  import opened AppModel
  import FatDescriptor
  import FatContents

  const PAGE_BYTES: nat := 4096

  /** A byte, or zero behind the end. */
  function ByteAt(bytes: seq<Byte>, k: nat): Byte {
    if k < |bytes| then bytes[k] else 0
  }

  /** The number that `n` bytes from `k` on stand for, the lowest byte first. */
  function NumberFrom(bytes: seq<Byte>, k: nat, n: nat): nat
    decreases n
  {
    if n == 0 then 0 else ByteAt(bytes, k) + 0x100 * NumberFrom(bytes, k + 1, n - 1)
  }

  /** The 64-bit number at `k`. */
  function NumberAt(bytes: seq<Byte>, k: nat): nat {
    NumberFrom(bytes, k, 8)
  }

  /** A 64-bit number as a word: the three lowest bits, the frame number in bits 12 to 51, and the others. */
  function WordOf(n: nat): (w: Word)
    ensures n == 0 ==> w == NULL_WORD
  {
    Word(n % 2 == 1, n / 2 % 2 == 1, n / 4 % 2 == 1, n / 8 % 0x200 + 0x200 * (n / 0x10_0000_0000_0000),
         n / 0x1000 % 0x100_0000_0000)
  }

  /** The number that a word is in memory. */
  function NumberOf(w: Word): nat {
    (if w.present then 1 else 0) + (if w.writable then 2 else 0) + (if w.user then 4 else 0)
    + 8 * (w.attr % 0x200) + 0x1000 * w.addr + 0x10_0000_0000_0000 * (w.attr / 0x200)
  }

  /** Its byte number `j`, the lowest one first. */
  function ByteOf(n: nat, j: nat): Byte {
    if j == 0 then n % 0x100 else ByteOf(n / 0x100, j - 1)
  }

  lemma SecondFlag(n: nat)
    ensures n / 2 == n / 2 % 2 + 2 * (n / 4)
  {}

  lemma ThirdFlag(n: nat)
    ensures n / 4 == n / 4 % 2 + 2 * (n / 8)
  {}

  lemma LowParts(n: nat)
    ensures n / 8 == n / 8 % 0x200 + 0x200 * (n / 0x1000)
  {}

  lemma HighParts(n: nat)
    ensures n / 0x1000 == n / 0x1000 % 0x100_0000_0000 + 0x100_0000_0000 * (n / 0x10_0000_0000_0000)
  {}

  lemma AttrParts(low: nat, high: nat)
    requires low < 0x200
    ensures (low + 0x200 * high) % 0x200 == low && (low + 0x200 * high) / 0x200 == high
  {}

  /** A number and its word. */
  lemma NumberBack(n: nat)
    ensures NumberOf(WordOf(n)) == n
  {
    SecondFlag(n);
    ThirdFlag(n);
    LowParts(n);
    HighParts(n);
    AttrParts(n / 8 % 0x200, n / 0x10_0000_0000_0000);
  }

  /** Every byte of the file is in its word, at its place, and zeros follow the last one. */
  lemma BytesBack(bytes: seq<Byte>, i: nat, j: nat)
    requires i < |Words(bytes)| && j < 8
    ensures ByteOf(NumberOf(Words(bytes)[i]), j) == if 8 * i + j < |bytes| then bytes[8 * i + j] else 0
  {
    NumberBack(NumberAt(bytes, 8 * i));
    hide NumberOf, WordOf;
    ByteOfNumber(bytes, 8 * i, 8, j);
  }

  lemma {:induction false} ByteOfNumber(bytes: seq<Byte>, k: nat, n: nat, j: nat)
    requires j < n
    ensures ByteOf(NumberFrom(bytes, k, n), j) == ByteAt(bytes, k + j)
    decreases n
  {
    hide ByteAt;
    if j > 0 {
      ByteOfNumber(bytes, k + 1, n - 1, j - 1);
    }
  }

  /** The words that hold the bytes, filled up with zeros. */
  function Words(bytes: seq<Byte>): seq<Word> {
    seq((|bytes| + 7) / 8, i requires 0 <= i => WordOf(NumberAt(bytes, 8 * i)))
  }

  /** A zeroed page into which the bytes were copied. */
  function PageWith(bytes: seq<Byte>): Page {
    seq(ENTRIES, i requires 0 <= i => WordOf(NumberAt(bytes, 8 * i)))
  }

  /** Within a slice the numbers are the same, and at its end too if nothing follows it. */
  lemma {:induction false} NumberInSlice(bytes: seq<Byte>, off: nat, size: nat, k: nat, n: nat)
    requires off + size <= |bytes| && (k + n <= size || off + size == |bytes|)
    ensures NumberFrom(bytes[off..off + size], k, n) == NumberFrom(bytes, off + k, n)
    decreases n
  {
    if n > 0 {
      NumberInSlice(bytes, off, size, k + 1, n - 1);
    }
  }

  lemma {:induction false} NumberZero(bytes: seq<Byte>, k: nat, n: nat)
    requires k >= |bytes|
    ensures NumberFrom(bytes, k, n) == 0
    decreases n
  {
    if n > 0 {
      NumberZero(bytes, k + 1, n - 1);
    }
  }

  /** What `Load` gives for a page, over zeros, is the page of the mapping. */
  lemma LoadedPage(content: seq<Byte>, begin: nat, end: nat, v: nat)
    requires begin <= v && (v - begin) * PAGE_BYTES <= |content|
    ensures var off := (v - begin) * PAGE_BYTES;
      PageWith(content[off..off + FatDescriptor.Min(PAGE_BYTES, |content| - off)]) == FilePage(FileMapping(begin, end, Words(content)), v)
  {
    hide WordOf, NumberFrom;
    var off := (v - begin) * PAGE_BYTES;
    var buf := content[off..off + FatDescriptor.Min(PAGE_BYTES, |content| - off)];
    forall i | 0 <= i < ENTRIES
      ensures PageWith(buf)[i] == FilePage(FileMapping(begin, end, Words(content)), v)[i]
    {
      var at := (v - begin) * ENTRIES + i;
      NumberInSlice(content, off, |buf|, 8 * i, 8);
      assert off + 8 * i == 8 * at;
      if at >= |Words(content)| {
        NumberZero(content, 8 * at, 8);
      }
    }
  }

  /** A file needs as many pages in bytes as in words. */
  lemma PagesNeeded(content: seq<Byte>)
    ensures (|Words(content)| + (ENTRIES - 1)) / ENTRIES == (|content| + (PAGE_BYTES - 1)) / PAGE_BYTES
  {}

  lemma OffsetInFile(size: nat, k: nat)
    requires k < (size + (PAGE_BYTES - 1)) / PAGE_BYTES
    ensures k * PAGE_BYTES < size
  {}

  /** The page that a fault in a mapping brings in, through the file's descriptor: the bytes from the page's offset on,
      over the zeros of a new page. */
  method FillPage(fd: FatDescriptor.FileDescriptor, begin: nat, end: nat, v: nat, ghost cs: seq<nat>) returns (page: Page)
    requires fd.Mounted() && fd.Has(cs) && begin <= v < end
    requires end - begin == (fd.Entry().fileSize + (PAGE_BYTES - 1)) / PAGE_BYTES
    ensures fd.Entry().fileSize <= |FatContents.Flat(fd.volume.data[..], cs)|
    ensures page == FilePage(FileMapping(begin, end, Words(fd.Content(cs))), v)
  {
    hide FilePage, PageWith, Words, FatContents.Flat, NumberFrom, WordOf;
    var offset := (v - begin) * PAGE_BYTES;
    OffsetInFile(fd.Entry().fileSize, v - begin);
    var buf := fd.Load(PAGE_BYTES, offset, cs);
    LoadedPage(fd.Content(cs), begin, end, v);
    page := PageWith(buf);
  }
}
