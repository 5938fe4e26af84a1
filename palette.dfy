/** The PLTE payload encoder and its display text (png/src/chunk/palette.rs; section 11.2.3
    of the PNG Specification). */
module PaletteChunk {
  import opened ByteOrder

  /** One palette entry, the source's `Palette(u8, u8, u8)`. */
  datatype PaletteEntry = PaletteEntry(red: u8, green: u8, blue: u8)

  datatype ChunkPalette = ChunkPalette(palettes: seq<PaletteEntry>)

  /** The map/flatten of the encoder: three bytes per entry, in order. */
  function EntriesAsBytes(ps: seq<PaletteEntry>): (r: seq<u8>)
    ensures |r| == 3 * |ps|
  {
    if ps == [] then [] else [ps[0].red, ps[0].green, ps[0].blue] + EntriesAsBytes(ps[1..])
  }

  /** `ChunkPalette::as_bytes`. */
  function PaletteAsBytes(p: ChunkPalette): (r: seq<u8>)
    ensures |r| == 3 * |p.palettes|
    ensures p.palettes == [] ==> r == []
  {
    EntriesAsBytes(p.palettes)
  }

  /** Bytes 3i, 3i+1 and 3i+2 are the three components of entry i. */
  lemma {:induction false} EntryAt(ps: seq<PaletteEntry>, i: nat)
    requires i < |ps|
    ensures EntriesAsBytes(ps)[3 * i] == ps[i].red
    ensures EntriesAsBytes(ps)[3 * i + 1] == ps[i].green
    ensures EntriesAsBytes(ps)[3 * i + 2] == ps[i].blue
  {
    if i > 0 {
      EntryAt(ps[1..], i - 1);
    }
  }

  /** Encoding a concatenation of entry lists concatenates their encodings. */
  lemma {:induction false} EncodeAppend(a: seq<PaletteEntry>, b: seq<PaletteEntry>)
    ensures EntriesAsBytes(a + b) == EntriesAsBytes(a) + EntriesAsBytes(b)
  {
    if a != [] {
      assert (a + b)[0] == a[0] && (a + b)[1..] == a[1..] + b;
      EncodeAppend(a[1..], b);
    } else {
      assert a + b == b;
    }
  }

  /** Grouping bytes into triples: the palette reading of section 11.2.3. */
  function Triples(b: seq<u8>): seq<PaletteEntry>
    requires |b| % 3 == 0
  {
    if b == [] then [] else [PaletteEntry(b[0], b[1], b[2])] + Triples(b[3..])
  }

  /** Grouping the encoding into triples gives the entries back. */
  lemma {:induction false} TriplesOfEncoding(ps: seq<PaletteEntry>)
    ensures Triples(EntriesAsBytes(ps)) == ps
  {
    if ps != [] {
      var r := EntriesAsBytes(ps);
      assert r[3..] == EntriesAsBytes(ps[1..]);
      TriplesOfEncoding(ps[1..]);
    }
  }

  /** Decimal text of a number, as Rust's `{}` formats an integer. */
  function DecimalString(n: nat): (r: string)
    ensures |r| >= 1
    ensures forall i | 0 <= i < |r| :: '0' <= r[i] <= '9'
  {
    var digit := ["0123456789"[n % 10]];
    if n < 10 then digit else DecimalString(n / 10) + digit
  }

  /** `Display for Palette`: `Palette: (r, g, b)`. */
  function EntryToString(p: PaletteEntry): string
  {
    "Palette: (" + DecimalString(p.red) + ", " + DecimalString(p.green) + ", " + DecimalString(p.blue) + ")"
  }

  /** `Display for ChunkPalette`: the entries joined by newlines. */
  function PaletteToString(ps: seq<PaletteEntry>): string
  {
    if ps == [] then ""
    else if |ps| == 1 then EntryToString(ps[0])
    else EntryToString(ps[0]) + "\n" + PaletteToString(ps[1..])
  }

  function CountNewlines(s: string): nat
  {
    if s == [] then 0 else (if s[0] == '\n' then 1 else 0) + CountNewlines(s[1..])
  }

  lemma {:induction false} CountNewlinesAppend(a: string, b: string)
    ensures CountNewlines(a + b) == CountNewlines(a) + CountNewlines(b)
  {
    if a == [] {
      assert a + b == b;
    } else {
      assert (a + b)[0] == a[0] && (a + b)[1..] == a[1..] + b;
      CountNewlinesAppend(a[1..], b);
    }
  }

  lemma {:induction false} NoNewlineInDigits(s: string)
    requires forall i | 0 <= i < |s| :: '0' <= s[i] <= '9'
    ensures CountNewlines(s) == 0
  {
    if s != [] {
      NoNewlineInDigits(s[1..]);
    }
  }

  lemma EntryHasNoNewline(p: PaletteEntry)
    ensures CountNewlines(EntryToString(p)) == 0
  {
    var r, g, b := DecimalString(p.red), DecimalString(p.green), DecimalString(p.blue);
    NoNewlineInDigits(r);
    NoNewlineInDigits(g);
    NoNewlineInDigits(b);
    CountNewlinesAppend("Palette: (", r);
    CountNewlinesAppend("Palette: (" + r, ", ");
    CountNewlinesAppend("Palette: (" + r + ", ", g);
    CountNewlinesAppend("Palette: (" + r + ", " + g, ", ");
    CountNewlinesAppend("Palette: (" + r + ", " + g + ", ", b);
    CountNewlinesAppend("Palette: (" + r + ", " + g + ", " + b, ")");
  }

  /** The display text has one line per palette entry. */
  lemma {:induction false} OneLinePerEntry(ps: seq<PaletteEntry>)
    requires ps != []
    ensures CountNewlines(PaletteToString(ps)) == |ps| - 1
  {
    EntryHasNoNewline(ps[0]);
    if |ps| > 1 {
      OneLinePerEntry(ps[1..]);
      CountNewlinesAppend(EntryToString(ps[0]), "\n");
      CountNewlinesAppend(EntryToString(ps[0]) + "\n", PaletteToString(ps[1..]));
    }
  }
}
