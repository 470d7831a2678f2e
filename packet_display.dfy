/**
 * The text renderings of packets and packet lists (their `Display`
 * implementations): a packet as its timestamp in 16 lower-case hex digits, a
 * colon, then each data byte as a space and two hex digits; a list as
 * "PacketList(len=N)" followed by each packet on its own line, indented by two
 * spaces. Every field is printed at a fixed width, so the text can be read back.
 */
module PacketDisplay {
  import opened Wrappers
  import opened Bytes
  import opened Layouts
  import opened PacketFormat
  import opened PacketViews
  import opened PacketIterators

  /** Number of values n hex digits can spell. */
  function Pow16(n: nat): (p: nat)
    ensures p >= 1
  {
    if n == 0 then 1 else 16 * Pow16(n - 1)
  }

  lemma Pow16Widths()
    ensures Pow16(2) == 0x100
    ensures Pow16(16) == 0x1_0000_0000_0000_0000
  {
  }

  predicate IsHexDigit(c: char) {
    '0' <= c <= '9' || 'a' <= c <= 'f'
  }

  /** The lower-case hex digit for d. */
  function HexDigit(d: nat): (c: char)
    requires d < 16
    ensures IsHexDigit(c)
  {
    if d < 10 then ('0' as int + d) as char else ('a' as int + d - 10) as char
  }

  /** The value of a hex digit. */
  function DigitValue(c: char): (d: nat)
    requires IsHexDigit(c)
    ensures d < 16
  {
    if c <= '9' then c as int - '0' as int else c as int - 'a' as int + 10
  }

  lemma DigitRoundTrip(d: nat)
    requires d < 16
    ensures DigitValue(HexDigit(d)) == d
  {
  }

  /** n in exactly width lower-case hex digits, zero-padded, most significant first (`{:0Nx}`). */
  function Hex(n: nat, width: nat): (s: string)
    requires n < Pow16(width)
    ensures |s| == width
    ensures forall i :: 0 <= i < |s| ==> IsHexDigit(s[i])
  {
    if width == 0 then "" else Hex(n / 16, width - 1) + [HexDigit(n % 16)]
  }

  /** The number a string of hex digits spells, most significant first. */
  function HexValue(s: string): (n: nat)
    requires forall i :: 0 <= i < |s| ==> IsHexDigit(s[i])
    ensures n < Pow16(|s|)
  {
    if s == [] then 0 else 16 * HexValue(s[..|s| - 1]) + DigitValue(s[|s| - 1])
  }

  /** Reading back a number printed in hex gives the number. */
  lemma {:induction false} HexRoundTrip(n: nat, width: nat)
    requires n < Pow16(width)
    ensures HexValue(Hex(n, width)) == n
  {
    if width > 0 {
      var s := Hex(n, width);
      HexRoundTrip(n / 16, width - 1);
      assert s[..width - 1] == Hex(n / 16, width - 1);
      DigitRoundTrip(n % 16);
    }
  }

  /** One data byte as the list of bytes is printed: a space, then two hex digits. */
  function ByteText(b: u8): (s: string)
    ensures |s| == 3 && s[0] == ' '
  {
    Pow16Widths();
    " " + Hex(b, 2)
  }

  /** The data bytes as printed after the colon. */
  function DataText(data: seq<u8>): (s: string)
    ensures |s| == 3 * |data|
  {
    if data == [] then "" else ByteText(data[0]) + DataText(data[1..])
  }

  /** `PacketRef`'s `Display`: the timestamp in 16 hex digits, a colon, then the data bytes. */
  function PacketText(p: Packet): (s: string)
    ensures |s| == 17 + 3 * |p.data|
    ensures s[16] == ':'
  {
    Pow16Widths();
    Hex(p.timestamp, 16) + ":" + DataText(p.data)
  }

  /** How a view of a packet is displayed: the packet it reads. */
  function PacketRefText(r: PacketRef): (s: string)
    requires r.Readable()
    ensures |s| == 17 + 3 * r.DataLength()
  {
    PacketText(r.ToPacket())
  }

  /** The printed byte reads back as the byte. */
  lemma ByteTextValue(b: u8)
    ensures var t := ByteText(b);
            && (forall k :: 1 <= k < 3 ==> IsHexDigit(t[k]))
            && HexValue(t[1..]) == b
  {
    Pow16Widths();
    assert ByteText(b)[1..] == Hex(b, 2);
    HexRoundTrip(b, 2);
  }

  /** Data byte i is printed at characters 3i to 3i + 3. */
  lemma {:induction false} DataTextAt(data: seq<u8>, i: nat)
    requires i < |data|
    ensures DataText(data)[3 * i..3 * i + 3] == ByteText(data[i])
    decreases i
  {
    if i > 0 {
      var tail := DataText(data[1..]);
      DataTextAt(data[1..], i - 1);
      assert DataText(data) == ByteText(data[0]) + tail;
      assert DataText(data)[3 * i..3 * i + 3] == tail[3 * (i - 1)..3 * (i - 1) + 3];
    }
  }

  /** Data byte i of a packet is printed at characters 17 + 3i to 20 + 3i of its text. */
  lemma PacketTextByte(p: Packet, i: nat)
    requires i < |p.data|
    ensures PacketText(p)[17 + 3 * i..17 + 3 * i + 3] == ByteText(p.data[i])
  {
    Pow16Widths();
    DataTextAt(p.data, i);
    var s := PacketText(p);
    assert s == (Hex(p.timestamp, 16) + ":") + DataText(p.data);
    assert s[17 + 3 * i..17 + 3 * i + 3] == DataText(p.data)[3 * i..3 * i + 3];
  }

  /**
   * The text of a packet can be read back: its first 16 characters spell the
   * timestamp, and the two digits after the i-th space of the rest spell data
   * byte i.
   */
  lemma PacketTextFields(p: Packet)
    ensures var s := PacketText(p);
            && (forall k :: 0 <= k < 16 ==> IsHexDigit(s[k]))
            && HexValue(s[..16]) == p.timestamp
            && forall i :: 0 <= i < |p.data| ==>
                 && s[17 + 3 * i] == ' '
                 && (forall k :: 17 + 3 * i + 1 <= k < 17 + 3 * i + 3 ==> IsHexDigit(s[k]))
                 && HexValue(s[17 + 3 * i + 1..17 + 3 * i + 3]) == p.data[i]
  {
    PacketTextTimestamp(p);
    var s := PacketText(p);
    forall i | 0 <= i < |p.data|
      ensures s[17 + 3 * i] == ' '
      ensures forall k :: 17 + 3 * i + 1 <= k < 17 + 3 * i + 3 ==> IsHexDigit(s[k])
      ensures HexValue(s[17 + 3 * i + 1..17 + 3 * i + 3]) == p.data[i]
    {
      PacketTextByte(p, i);
      ByteTextValue(p.data[i]);
      var t := s[17 + 3 * i..17 + 3 * i + 3];
      assert s[17 + 3 * i + 1..17 + 3 * i + 3] == t[1..];
      forall k | 17 + 3 * i + 1 <= k < 17 + 3 * i + 3 ensures IsHexDigit(s[k]) {
        assert s[k] == t[k - 17 - 3 * i];
      }
    }
  }

  /** The first 16 characters of a packet's text spell its timestamp. */
  lemma PacketTextTimestamp(p: Packet)
    ensures var s := PacketText(p);
            && (forall k :: 0 <= k < 16 ==> IsHexDigit(s[k]))
            && HexValue(s[..16]) == p.timestamp
  {
    Pow16Widths();
    var s := PacketText(p);
    assert s[..16] == Hex(p.timestamp, 16);
    HexRoundTrip(p.timestamp, 16);
  }

  /** Different packets are displayed differently. */
  lemma PacketTextInjective(p: Packet, q: Packet)
    requires PacketText(p) == PacketText(q)
    ensures p == q
  {
    PacketTextFields(p);
    PacketTextFields(q);
    assert |p.data| == |q.data|;
    forall i | 0 <= i < |p.data| ensures p.data[i] == q.data[i] {
      var s := PacketText(p);
      assert s[17 + 3 * i + 1..17 + 3 * i + 3] == PacketText(q)[17 + 3 * i + 1..17 + 3 * i + 3];
    }
  }

  /** A packet's text fits on one line. */
  lemma {:induction false} PacketTextOneLine(p: Packet)
    ensures '\n' !in PacketText(p)
  {
    Pow16Widths();
    var s := PacketText(p);
    DataTextOneLine(p.data);
    assert s == Hex(p.timestamp, 16) + ":" + DataText(p.data);
    forall k | 0 <= k < 16 ensures s[k] != '\n' {
      assert IsHexDigit(s[k]);
    }
  }

  lemma {:induction false} DataTextOneLine(data: seq<u8>)
    ensures '\n' !in DataText(data)
    decreases |data|
  {
    if data != [] {
      DataTextOneLine(data[1..]);
      Pow16Widths();
      var b := ByteText(data[0]);
      assert b == " " + Hex(data[0], 2);
      assert b[1] != '\n' && b[2] != '\n' by {
        assert IsHexDigit(Hex(data[0], 2)[0]) && IsHexDigit(Hex(data[0], 2)[1]);
      }
      assert '\n' !in b;
    }
  }

  const DecimalDigits := "0123456789"

  /** n in decimal, without leading zeros (`{}` of an unsigned integer). */
  function Decimal(n: nat): (s: string)
    ensures |s| >= 1
    ensures forall i :: 0 <= i < |s| ==> '0' <= s[i] <= '9'
  {
    if n < 10 then [DecimalDigits[n]] else Decimal(n / 10) + [DecimalDigits[n % 10]]
  }

  /** The number a string of decimal digits spells. */
  function DecimalValue(s: string): nat
    requires forall i :: 0 <= i < |s| ==> '0' <= s[i] <= '9'
  {
    if s == [] then 0 else 10 * DecimalValue(s[..|s| - 1]) + (s[|s| - 1] as int - '0' as int)
  }

  /** Reading back a printed count gives the count; only zero is printed with a leading zero. */
  lemma {:induction false} DecimalRoundTrip(n: nat)
    ensures DecimalValue(Decimal(n)) == n
    ensures Decimal(n)[0] == '0' <==> n == 0
  {
    var s := Decimal(n);
    if n >= 10 {
      DecimalRoundTrip(n / 10);
      assert s[..|s| - 1] == Decimal(n / 10);
      assert s[0] == Decimal(n / 10)[0];
    }
  }

  /** The first line of a list's text. */
  function ListHeaderText(n: u32): (s: string)
    ensures '\n' !in s
  {
    var s := "PacketList(len=" + Decimal(n) + ")";
    assert forall i :: 0 <= i < |s| ==> s[i] != '\n' by {
      forall i | 0 <= i < |s| ensures s[i] != '\n' {
        if 15 <= i < 15 + |Decimal(n)| {
          assert s[i] == Decimal(n)[i - 15];
        }
      }
    }
    s
  }

  /** The packets' lines: each starts a new line indented by two spaces. */
  function PacketLines(ps: seq<Packet>): string
  {
    if ps == [] then "" else "\n  " + PacketText(ps[0]) + PacketLines(ps[1..])
  }

  /** `PacketListRef`'s `Display`, given the count field and the packets it holds. */
  function ListText(n: u32, ps: seq<Packet>): string
  {
    ListHeaderText(n) + PacketLines(ps)
  }

  /** Number of times c occurs in s. */
  function Occurrences(c: char, s: string): nat
  {
    if s == [] then 0 else (if s[0] == c then 1 else 0) + Occurrences(c, s[1..])
  }

  lemma {:induction false} OccurrencesAppend(c: char, s: string, t: string)
    ensures Occurrences(c, s + t) == Occurrences(c, s) + Occurrences(c, t)
    decreases |s|
  {
    if s != [] {
      OccurrencesAppend(c, s[1..], t);
      assert (s + t)[1..] == s[1..] + t;
    } else {
      assert s + t == t;
    }
  }

  lemma {:induction false} OccurrencesAbsent(c: char, s: string)
    requires c !in s
    ensures Occurrences(c, s) == 0
    decreases |s|
  {
    if s != [] {
      assert c !in s[1..];
      OccurrencesAbsent(c, s[1..]);
    }
  }

  /** One line per packet: the text of a list holds exactly one newline per packet. */
  lemma {:induction false} ListTextLines(n: u32, ps: seq<Packet>)
    ensures Occurrences('\n', ListText(n, ps)) == |ps|
  {
    OccurrencesAbsent('\n', ListHeaderText(n));
    OccurrencesAppend('\n', ListHeaderText(n), PacketLines(ps));
    PacketLinesCount(ps);
  }

  lemma {:induction false} PacketLinesCount(ps: seq<Packet>)
    ensures Occurrences('\n', PacketLines(ps)) == |ps|
    decreases |ps|
  {
    if ps != [] {
      var lead := "\n  " + PacketText(ps[0]);
      PacketLinesCount(ps[1..]);
      PacketTextOneLine(ps[0]);
      OccurrencesAbsent('\n', PacketText(ps[0]));
      OccurrencesAppend('\n', "\n  ", PacketText(ps[0]));
      OccurrencesAppend('\n', lead, PacketLines(ps[1..]));
    }
  }

  /** The lines of one more packet follow the lines already written. */
  lemma {:induction false} PacketLinesAppend(ps: seq<Packet>, p: Packet)
    ensures PacketLines(ps + [p]) == PacketLines(ps) + "\n  " + PacketText(p)
    decreases |ps|
  {
    if ps == [] {
      assert [p][1..] == [];
    } else {
      PacketLinesAppend(ps[1..], p);
      assert (ps + [p])[1..] == ps[1..] + [p];
    }
  }

  /** The text of a list with one more packet: one more line. */
  lemma ListTextAppend(n: u32, ps: seq<Packet>, p: Packet)
    ensures ListText(n, ps + [p]) == ListText(n, ps) + "\n  " + PacketText(p)
  {
    PacketLinesAppend(ps, p);
  }

  /** The iterator's next packet moves from the rest to the packets done. */
  lemma NextStep(done: seq<Packet>, rest: seq<Packet>, all: seq<Packet>, more: bool)
    requires done + rest == all
    requires more <==> rest != []
    ensures more ==> done + [rest[0]] + rest[1..] == all
    ensures !more ==> done == all
  {
  }

  /**
   * `PacketListRef`'s `Display`: write the header line, then fold over the
   * packets the iterator yields, writing each on a new line. Every packet the
   * count announces has to lie inside the buffer.
   */
  method ListToString(list: PacketListRef, layout: Layout) returns (s: string)
    requires list.HeaderReadable() && list.Packets(layout).Some?
    ensures s == ListText(list.Length(), list.Packets(layout).value)
  {
    ghost var all := list.Packets(layout).value;
    s := ListHeaderText(list.Length());
    var it := new PacketListIterator(list, layout);
    ghost var done: seq<Packet> := [];
    ghost var rest := all;
    var r := it.Next();
    NextStep(done, rest, all, r.Some?);
    while r.Some?
      invariant it.layout == layout && it.Rest().Some?
      invariant r.Some? ==> r.value.Readable() && done + [r.value.ToPacket()] + it.Rest().value == all
      invariant r.None? ==> done == all
      invariant s == ListText(list.Length(), done)
      decreases it.remaining + (if r.Some? then 1 else 0)
    {
      var p := r.value;
      ListTextAppend(list.Length(), done, p.ToPacket());
      s := s + "\n  " + PacketRefText(p);
      done := done + [p.ToPacket()];
      rest := it.Rest().value;
      r := it.Next();
      NextStep(done, rest, all, r.Some?);
    }
  }
}
