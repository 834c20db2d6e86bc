/**
 * Sizes in a tar archive (internal/gitfetch/archive.go): reading one size field without
 * overflow, and the running limits over a whole archive. The octal form is that of the
 * ustar interchange format (POSIX.1, pax), the base-256 form that of GNU tar.
 */
module TarSize {
  import opened Text
  import opened Wrappers

  const TWO_63: nat := 0x8000_0000_0000_0000
  const BLOCK_SIZE: nat := 512
  const SIZE_START: nat := 124
  const SIZE_END: nat := 136

  type Byte = b: int | 0 <= b < 256

  /** Go's int64: every sum and product below is checked to stay inside it. */
  newtype Int64 = x: int | -0x8000_0000_0000_0000 <= x < 0x8000_0000_0000_0000

  const MAX_INT64: Int64 := 0x7fff_ffff_ffff_ffff

  datatype SizeError = MissingSize | NegativeSize | InvalidOctal | SizeOverflow
  datatype SizeResult = Size(size: Int64) | Bad(error: SizeError)

  // ---------------------------------------------------------------------------------------
  // What a field means.
  // ---------------------------------------------------------------------------------------

  /** The number written by these digits, most significant first. */
  function Number(digits: seq<nat>, base: nat): nat {
    if digits == [] then 0 else Number(digits[..|digits| - 1], base) * base + digits[|digits| - 1]
  }

  function AsText(field: seq<Byte>): (s: string)
    ensures |s| == |field|
    ensures forall i | 0 <= i < |field| :: s[i] == field[i] as char
  {
    seq(|field|, i requires 0 <= i < |field| => field[i] as char)
  }

  function IsPadding(): char -> bool {
    (c: char) => c == ' ' || c == '\0'
  }

  predicate IsOctal(c: char) {
    '0' <= c <= '7'
  }

  predicate AllOctal(s: string) {
    forall i | 0 <= i < |s| :: IsOctal(s[i])
  }

  function OctalDigits(s: string): (digits: seq<nat>)
    ensures |digits| == |s|
  {
    seq(|s|, i requires 0 <= i < |s| => if IsOctal(s[i]) then s[i] as int - '0' as int else 0)
  }

  /** The bytes of a base-256 field, the marker bit taken off. */
  function BinaryDigits(field: seq<Byte>): (digits: seq<nat>)
    requires field != [] && field[0] >= 0x80
    ensures |digits| == |field|
  {
    seq(|field|, i requires 0 <= i < |field| => if i == 0 then field[0] - 0x80 else field[i])
  }

  /** The size a field of any length states, however large; none when it is not well formed. */
  function StatedSize(field: seq<Byte>): Option<nat> {
    if field == [] then None
    else if field[0] >= 0xC0 then None
    else if field[0] >= 0x80 then Some(Number(BinaryDigits(field), 256))
    else
      StatedOctal(Trim(AsText(field), IsPadding()))
  }

  function StatedOctal(text: string): Option<nat> {
    if AllOctal(text) then Some(Number(OctalDigits(text), 8)) else None
  }

  lemma {:induction false} NumberGrows(digits: seq<nat>, base: nat, n: nat)
    requires base > 0 && n <= |digits|
    ensures Number(digits[..n], base) <= Number(digits, base)
    decreases |digits|
  {
    if n == |digits| {
      assert digits[..n] == digits;
    } else {
      var init := digits[..|digits| - 1];
      NumberGrows(init, base, n);
      assert init[..n] == digits[..n];
      TimesBase(Number(init, base), base);
    }
  }

  lemma TimesBase(n: nat, base: nat)
    requires base > 0
    ensures n * base >= n
  {
  }

  lemma NumberSnoc(digits: seq<nat>, base: nat, n: nat)
    requires n < |digits|
    ensures Number(digits[..n + 1], base) == Number(digits[..n], base) * base + digits[n]
  {
    assert digits[..n + 1][..n] == digits[..n];
  }

  // ---------------------------------------------------------------------------------------
  // Reading a field.
  // ---------------------------------------------------------------------------------------

  /** A field that states a size in range, and only such a field, is read, and as exactly that size. */
  ghost predicate IsExact(r: SizeResult, stated: Option<nat>) {
    match stated
    case None => r.Bad?
    case Some(n) => if n < TWO_63 then r == Size(n as Int64) else r.Bad?
  }

  method ParseBinary(field: seq<Byte>) returns (r: SizeResult)
    requires field != [] && 0x80 <= field[0] < 0xC0
    ensures IsExact(r, Some(Number(BinaryDigits(field), 256)))
    ensures r.Bad? ==> r.error.SizeOverflow?
  {
    ghost var digits := BinaryDigits(field);
    var value: Int64 := 0;
    for index := 0 to |field|
      invariant value >= 0 && value as nat == Number(digits[..index], 256)
    {
      NumberSnoc(digits, 256, index);
      var current := if index == 0 then field[index] - 0x80 else field[index];
      if value > (MAX_INT64 - current as Int64) / 256 {
        NumberGrows(digits, 256, index + 1);
        return Bad(SizeOverflow);
      }
      value := value * 256 + current as Int64;
    }
    assert digits[..|field|] == digits;
    return Size(value);
  }

  method ParseOctal(text: string) returns (r: SizeResult)
    ensures IsExact(r, StatedOctal(text))
    ensures r.Bad? ==> r.error.InvalidOctal? || r.error.SizeOverflow?
  {
    ghost var digits := OctalDigits(text);
    var size: Int64 := 0;
    for i := 0 to |text|
      invariant forall k | 0 <= k < i :: IsOctal(text[k])
      invariant size >= 0 && size as nat == Number(digits[..i], 8)
    {
      var digit := text[i];
      if digit < '0' || digit > '7' {
        return Bad(InvalidOctal);
      }
      NumberSnoc(digits, 8, i);
      var value := (digit as int - '0' as int) as Int64;
      if size > (MAX_INT64 - value) / 8 {
        NumberGrows(digits, 8, i + 1);
        return Bad(SizeOverflow);
      }
      size := size * 8 + value;
    }
    assert digits[..|text|] == digits;
    return Size(size);
  }

  /** Exact for a field of any length, in either form. */
  method ParseTarEntrySize(field: seq<Byte>) returns (r: SizeResult)
    ensures IsExact(r, StatedSize(field))
    ensures r == Bad(MissingSize) <==> field == []
    ensures r == Bad(NegativeSize) <==> field != [] && field[0] >= 0xC0
  {
    if |field| == 0 {
      return Bad(MissingSize);
    }
    if field[0] >= 0x80 {
      if (field[0] / 0x40) % 2 == 1 {
        return Bad(NegativeSize);
      }
      r := ParseBinary(field);
      return;
    }
    var value := Trim(AsText(field), IsPadding());
    if value == "" {
      return Size(0);
    }
    r := ParseOctal(value);
  }

  // ---------------------------------------------------------------------------------------
  // Reading back what a tar writer writes.
  // ---------------------------------------------------------------------------------------

  /** `n` in exactly `width` octal digits, most significant first. */
  function OctalOf(n: nat, width: nat): (digits: seq<nat>)
    ensures |digits| == width
    ensures forall i | 0 <= i < width :: digits[i] < 8
  {
    if width == 0 then [] else OctalOf(n / 8, width - 1) + [n % 8]
  }

  /** `n` in exactly `width` bytes, most significant first. */
  function BytesOf(n: nat, width: nat): (digits: seq<Byte>)
    ensures |digits| == width
  {
    if width == 0 then [] else BytesOf(n / 256, width - 1) + [n % 256]
  }

  function PowerOf8(width: nat): nat {
    if width == 0 then 1 else 8 * PowerOf8(width - 1)
  }

  function PowerOf256(width: nat): nat {
    if width == 0 then 1 else 256 * PowerOf256(width - 1)
  }

  lemma {:induction false} NumberOfOctal(n: nat, width: nat)
    requires n < PowerOf8(width)
    ensures Number(OctalOf(n, width), 8) == n
  {
    if width > 0 {
      NumberOfOctal(n / 8, width - 1);
      assert OctalOf(n, width)[..width - 1] == OctalOf(n / 8, width - 1);
    }
  }

  lemma {:induction false} NumberOfBytes(n: nat, width: nat)
    requires n < PowerOf256(width)
    ensures Number(BytesOf(n, width), 256) == n
  {
    if width > 0 {
      NumberOfBytes(n / 256, width - 1);
      assert BytesOf(n, width)[..width - 1] == BytesOf(n / 256, width - 1);
    }
  }

  function OctalBytes(digits: seq<nat>): (bytes: seq<Byte>)
    requires forall i | 0 <= i < |digits| :: digits[i] < 8
    ensures |bytes| == |digits| && forall i | 0 <= i < |digits| :: bytes[i] == digits[i] + 48
  {
    if digits == [] then [] else OctalBytes(digits[..|digits| - 1]) + [digits[|digits| - 1] + 48]
  }

  /** The ustar form: octal digits and a terminating NUL or space. */
  function OctalField(n: nat, width: nat, terminator: Byte): (field: seq<Byte>) {
    OctalBytes(OctalOf(n, width)) + [terminator]
  }

  /** The GNU form: big-endian bytes, the first marked. */
  function BinaryField(n: nat, width: nat): (field: seq<Byte>)
    requires width > 0 && BytesOf(n, width)[0] < 0x40
  {
    [BytesOf(n, width)[0] + 0x80] + BytesOf(n, width)[1..]
  }

  lemma TrimLeftStops(s: string, cut: char -> bool)
    requires s != "" && !cut(s[0])
    ensures TrimLeft(s, cut) == s
  {
  }

  lemma TrimRightOnce(s: string, cut: char -> bool, last: char)
    requires s != "" && !cut(s[|s| - 1]) && cut(last)
    ensures TrimRight(s + [last], cut) == s
  {
    assert (s + [last])[..|s|] == s;
  }

  /** A size written in octal is read back. */
  lemma OctalFieldStates(n: nat, width: nat, terminator: Byte)
    requires width > 0 && n < PowerOf8(width) && (terminator == 0 || terminator == 32)
    ensures StatedSize(OctalField(n, width, terminator)) == Some(n)
  {
    var field, digits := OctalField(n, width, terminator), OctalOf(n, width);
    var text, kept := AsText(field), AsText(field[..width]);
    forall i | 0 <= i < width ensures IsOctal(kept[i]) && kept[i] as int == digits[i] + 48 {
      assert kept[i] == field[i] as char;
    }
    assert text == kept + [terminator as char];
    TrimLeftStops(text, IsPadding());
    TrimRightOnce(kept, IsPadding(), terminator as char);
    assert OctalDigits(kept) == digits;
    NumberOfOctal(n, width);
  }

  /** And so is one written in base 256. */
  lemma BinaryFieldStates(n: nat, width: nat)
    requires width > 0 && n < PowerOf256(width) && BytesOf(n, width)[0] < 0x40
    ensures StatedSize(BinaryField(n, width)) == Some(n)
  {
    assert BinaryDigits(BinaryField(n, width)) == BytesOf(n, width);
    NumberOfBytes(n, width);
  }

  // ---------------------------------------------------------------------------------------
  // A whole archive.
  // ---------------------------------------------------------------------------------------

  /** How a stream stops: at its end, in the middle of a header, at a size that is none, or inside an entry. */
  datatype Ending = Clean | ShortHeader | BadSize | ShortEntry

  /** What the stream holds, limits apart: the sizes of the entries that state one, and how it stops. */
  datatype Listing = Listing(sizes: seq<nat>, ending: Ending)

  predicate IsZeroBlock(block: seq<Byte>) {
    forall i | 0 <= i < |block| :: block[i] == 0
  }

  /** size rounded up to whole blocks, in int64 arithmetic: the sum may wrap around. */
  function PaddedSize(size: nat): int {
    var padded := if size % BLOCK_SIZE == 0 then size else size + (BLOCK_SIZE - size % BLOCK_SIZE);
    if padded < TWO_63 then padded else padded - 2 * TWO_63
  }

  /** `io.CopyN` into the void: a count that is not positive skips nothing. */
  function Skip(stream: seq<Byte>, count: int): Option<seq<Byte>> {
    if count <= 0 then Some(stream) else if count <= |stream| then Some(stream[count..]) else None
  }

  function ListingOf(stream: seq<Byte>): Listing
    decreases |stream|
  {
    if |stream| == 0 then Listing([], Clean)
    else if |stream| < BLOCK_SIZE then Listing([], ShortHeader)
    else if IsZeroBlock(stream[..BLOCK_SIZE]) then Listing([], Clean)
    else
      match StatedSize(stream[SIZE_START..SIZE_END])
      case None => Listing([], BadSize)
      case Some(size) =>
        if size >= TWO_63 then Listing([], BadSize)
        else
          match Skip(stream[BLOCK_SIZE..], PaddedSize(size))
          case None => Listing([size], ShortEntry)
          case Some(rest) => After(size, ListingOf(rest))
  }

  function After(size: nat, listing: Listing): Listing {
    Listing([size] + listing.sizes, listing.ending)
  }

  function Sum(sizes: seq<nat>): nat {
    if sizes == [] then 0 else sizes[0] + Sum(sizes[1..])
  }

  datatype Verdict = Accepted | TooManyEntries | TooManyBytes | Unreadable

  /** The entries whose header is complete: those that state a size, and one more that states none. */
  function Headers(listing: Listing): nat {
    |listing.sizes| + if listing.ending.BadSize? then 1 else 0
  }

  /** The sizes read before the entry limit strikes. */
  function Counted(sizes: seq<nat>, maxEntries: int): seq<nat> {
    if maxEntries <= 0 then [] else if maxEntries < |sizes| then sizes[..maxEntries] else sizes
  }

  predicate WithinLimits(sizes: seq<nat>, maxEntries: int, maxBytes: int) {
    |sizes| <= maxEntries && Sum(sizes) <= maxBytes
  }

  predicate Acceptable(listing: Listing, maxEntries: int, maxBytes: int) {
    listing.ending.Clean? && WithinLimits(listing.sizes, maxEntries, maxBytes)
  }

  /**
   * What the first trouble in the stream calls for. Sizes count only within the entries the
   * entry limit admits, a surplus header comes before what is wrong with its size, and a
   * stream is unreadable only if everything before the break is inside both limits.
   */
  function VerdictOn(listing: Listing, maxEntries: int, maxBytes: int): Verdict {
    if Sum(Counted(listing.sizes, maxEntries)) > maxBytes then TooManyBytes
    else if Headers(listing) > maxEntries then TooManyEntries
    else if listing.ending.Clean? then Accepted
    else Unreadable
  }

  lemma AcceptedExact(listing: Listing, maxEntries: nat, maxBytes: nat)
    ensures VerdictOn(listing, maxEntries, maxBytes).Accepted? <==> Acceptable(listing, maxEntries, maxBytes)
  {
    if |listing.sizes| <= maxEntries {
      assert Counted(listing.sizes, maxEntries) == listing.sizes;
    }
  }

  /** An entry inside both limits leaves the verdict to the rest, with what is left of the limits. */
  lemma EntryPasses(size: nat, listing: Listing, maxEntries: int, maxBytes: int)
    requires maxEntries >= 1 && size <= maxBytes
    ensures VerdictOn(After(size, listing), maxEntries, maxBytes) == VerdictOn(listing, maxEntries - 1, maxBytes - size)
  {
    var sizes := [size] + listing.sizes;
    assert sizes[1..] == listing.sizes;
    var counted := Counted(listing.sizes, maxEntries - 1);
    assert Counted(sizes, maxEntries) == [size] + counted;
    assert ([size] + counted)[1..] == counted;
  }

  lemma OverBytes(listing: Listing, maxEntries: nat, maxBytes: nat)
    requires maxEntries > 0 && listing.sizes != [] && listing.sizes[0] > maxBytes
    ensures VerdictOn(listing, maxEntries, maxBytes) == TooManyBytes
  {
    assert Counted(listing.sizes, maxEntries)[0] == listing.sizes[0];
  }

  lemma StopsBeforeEntry(listing: Listing, maxEntries: nat, maxBytes: nat)
    requires listing.sizes == []
    ensures VerdictOn(listing, maxEntries, maxBytes) ==
      if listing.ending.BadSize? && maxEntries == 0 then TooManyEntries
      else if listing.ending.Clean? then Accepted else Unreadable
  {
  }

  lemma StopsInEntry(listing: Listing, maxEntries: nat, maxBytes: nat)
    requires listing.ending.ShortEntry? && |listing.sizes| == 1
    requires maxEntries > 0 && listing.sizes[0] <= maxBytes
    ensures VerdictOn(listing, maxEntries, maxBytes) == Unreadable
  {
    assert Counted(listing.sizes, maxEntries) == listing.sizes;
    assert Sum(listing.sizes[1..]) == 0;
  }

  lemma NoEntryAdmitted(listing: Listing, maxBytes: nat)
    requires Headers(listing) > 0
    ensures VerdictOn(listing, 0, maxBytes) == TooManyEntries
  {
  }

  // ---------------------------------------------------------------------------------------
  // Reading back a written archive.
  // ---------------------------------------------------------------------------------------

  /** One entry as a tar writer lays it out: a header block that states the size in octal, and the content. */
  datatype Entry = Entry(header: seq<Byte>, content: seq<Byte>)

  predicate IsWritten(e: Entry) {
    && |e.header| == 512 && !IsZeroBlock(e.header)
    && |e.content| < PowerOf8(11)
    && (e.header[124..136] == OctalField(|e.content|, 11, 0) || e.header[124..136] == OctalField(|e.content|, 11, 32))
  }

  function Zeros(n: nat): (zeros: seq<Byte>)
    ensures |zeros| == n && IsZeroBlock(zeros)
  {
    seq(n, _ => 0)
  }

  /** The content is filled up with zeros to whole blocks. */
  function Filled(content: seq<Byte>): (filled: seq<Byte>)
    ensures |content| <= |filled| < |content| + 512 && |filled| % 512 == 0
  {
    content + Zeros((512 - |content| % 512) % 512)
  }

  function Archive(entries: seq<Entry>): seq<Byte> {
    if entries == [] then Zeros(1024)
    else entries[0].header + (Filled(entries[0].content) + Archive(entries[1..]))
  }

  lemma SizeIsSmall()
    ensures PowerOf8(11) == 0x2_0000_0000 < TWO_63 - 512
  {
  }

  lemma FilledIsPadded(content: seq<Byte>)
    requires |content| < PowerOf8(11)
    ensures PaddedSize(|content|) == |Filled(content)|
  {
    SizeIsSmall();
  }

  lemma HeaderStatesSize(e: Entry)
    requires IsWritten(e)
    ensures StatedSize(e.header[SIZE_START..SIZE_END]) == Some(|e.content|) && |e.content| < TWO_63
  {
    SizeIsSmall();
    OctalFieldStates(|e.content|, 11, 0);
    OctalFieldStates(|e.content|, 11, 32);
  }

  lemma ListingAfterHeader(header: seq<Byte>, body: seq<Byte>, size: nat)
    requires |header| == BLOCK_SIZE && !IsZeroBlock(header)
    requires StatedSize(header[SIZE_START..SIZE_END]) == Some(size) && size < TWO_63
    ensures ListingOf(header + body) ==
      match Skip(body, PaddedSize(size))
      case None => Listing([size], ShortEntry)
      case Some(rest) => After(size, ListingOf(rest))
  {
    var stream := header + body;
    assert stream[..BLOCK_SIZE] == header && stream[BLOCK_SIZE..] == body;
    assert stream[SIZE_START..SIZE_END] == header[SIZE_START..SIZE_END];
  }

  lemma SkipFilled(content: seq<Byte>, rest: seq<Byte>)
    requires |content| < PowerOf8(11)
    ensures Skip(Filled(content) + rest, PaddedSize(|content|)) == Some(rest)
  {
    FilledIsPadded(content);
    var body := Filled(content) + rest;
    assert body[|Filled(content)|..] == rest;
    assert |Filled(content)| == 0 ==> body == rest;
  }

  lemma EntryIsListed(e: Entry, rest: seq<Byte>)
    requires IsWritten(e)
    ensures ListingOf(e.header + (Filled(e.content) + rest)) == After(|e.content|, ListingOf(rest))
  {
    HeaderStatesSize(e);
    ListingAfterHeader(e.header, Filled(e.content) + rest, |e.content|);
    SkipFilled(e.content, rest);
  }

  function Lengths(entries: seq<Entry>): (lengths: seq<nat>)
    ensures |lengths| == |entries| && forall i | 0 <= i < |entries| :: lengths[i] == |entries[i].content|
  {
    if entries == [] then [] else [|entries[0].content|] + Lengths(entries[1..])
  }

  /** The reader walks a written archive from header to header: it lists the length of every content, in order, and
      reads to the end, whatever the contents hold. */
  lemma {:induction false} ArchiveIsListed(entries: seq<Entry>)
    requires forall e | e in entries :: IsWritten(e)
    ensures ListingOf(Archive(entries)) == Listing(Lengths(entries), Clean)
  {
    if entries == [] {
      EndIsListed(Zeros(1024));
    } else {
      var rest := entries[1..];
      ArchiveIsListed(rest);
      EntryIsListed(entries[0], Archive(rest));
    }
  }

  lemma EndIsListed(stream: seq<Byte>)
    requires |stream| >= BLOCK_SIZE && IsZeroBlock(stream)
    ensures ListingOf(stream) == Listing([], Clean)
  {
    assert IsZeroBlock(stream[..BLOCK_SIZE]);
  }

  /** Cut off inside its content, the archive is not read to its end. */
  lemma CutEntryIsShort(e: Entry, part: seq<Byte>)
    requires IsWritten(e) && |part| < |Filled(e.content)|
    ensures ListingOf(e.header + part) == Listing([|e.content|], ShortEntry)
  {
    HeaderStatesSize(e);
    FilledIsPadded(e.content);
    ListingAfterHeader(e.header, part, |e.content|);
  }

  /** The first trouble in the stream decides the verdict; the running counters never pass the limits on the way. */
  method ValidateTarLimits(stream: seq<Byte>, maxEntries: nat, maxBytes: Int64) returns (verdict: Verdict)
    requires maxBytes >= 0
    ensures verdict == VerdictOn(ListingOf(stream), maxEntries, maxBytes as int)
    ensures verdict.Accepted? <==> Acceptable(ListingOf(stream), maxEntries, maxBytes as int)
  {
    var rest := stream;
    var entries, bytes: Int64 := 0, 0;
    AcceptedExact(ListingOf(stream), maxEntries, maxBytes as nat);
    while true
      invariant 0 <= entries <= maxEntries && 0 <= bytes <= maxBytes
      invariant VerdictOn(ListingOf(stream), maxEntries, maxBytes as int)
             == VerdictOn(ListingOf(rest), maxEntries - entries, (maxBytes - bytes) as int)
      decreases |rest|
    {
      ghost var listing, entriesLeft, bytesLeft := ListingOf(rest), maxEntries - entries, (maxBytes - bytes) as int;
      if |rest| == 0 || (|rest| >= BLOCK_SIZE && IsZeroBlock(rest[..BLOCK_SIZE])) {
        StopsBeforeEntry(listing, entriesLeft, bytesLeft);
        return Accepted;
      }
      if |rest| < BLOCK_SIZE {
        StopsBeforeEntry(listing, entriesLeft, bytesLeft);
        return Unreadable;
      }
      entries := entries + 1;
      if entries > maxEntries {
        NoEntryAdmitted(listing, bytesLeft);
        return TooManyEntries;
      }
      var parsed := ParseTarEntrySize(rest[SIZE_START..SIZE_END]);
      if parsed.Bad? {
        StopsBeforeEntry(listing, entriesLeft, bytesLeft);
        return Unreadable;
      }
      if parsed.size > maxBytes - bytes {
        OverBytes(listing, entriesLeft, bytesLeft);
        return TooManyBytes;
      }
      var after := Skip(rest[BLOCK_SIZE..], PaddedSize(parsed.size as nat));
      if after.None? {
        StopsInEntry(listing, entriesLeft, bytesLeft);
        return Unreadable;
      }
      EntryPasses(parsed.size as nat, ListingOf(after.value), entriesLeft, bytesLeft);
      bytes := bytes + parsed.size;
      rest := after.value;
    }
  }
}
