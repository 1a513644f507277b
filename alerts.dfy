/** The data the correlation core works on: the key that identifies a
    signature, the hyperalert knowledge parsed for it, the clustered alert
    handed over by the clustering stage and the private hyperalert copy each
    alert receives. */
module Alerts {
  import opened Strings

  type UInt32 = x: int | 0 <= x < 0x1_0000_0000
  type Byte = x: int | 0 <= x < 0x100
  /** A TCP port already converted to host byte order (the value ntohs returns). */
  type Port = x: int | 0 <= x < 0x1_0000

  /** Size of snort_id[] in _AI_hyperalert_from_XML. */
  const SNORT_ID_BUFFER := 1024
  /** INET_ADDRSTRLEN: room for the longest dotted-decimal address and its NUL. */
  const INET_ADDRSTRLEN := 16
  /** Size of src_port[] and dst_port[] in _AI_macro_subst. */
  const PORT_BUFFER := 10

  /** (gid, sid, rev): the key of the hyperalert table; equality is field-wise. */
  datatype Key = Key(gid: UInt32, sid: UInt32, rev: UInt32)

  /** A hyperalert description: the key it was loaded for and its ordered
      pre- and postconditions (n_preconds and n_postconds are the lengths). */
  datatype Desc = Desc(key: Key, preconds: seq<string>, postconds: seq<string>)

  /** An IPv4 address as its four bytes in network order. */
  datatype Address = Address(b0: Byte, b1: Byte, b2: Byte, b3: Byte)

  /** The packet fields of an alert that the macros refer to. */
  datatype Flow = Flow(srcAddr: Address, dstAddr: Address, srcPort: Port, dstPort: Port)

  /** The value "%d" sees when handed an unsigned 32-bit field: the same bits read as a signed int. */
  function AsCInt(u: UInt32): int
  {
    if u < 0x8000_0000 then u else u - 0x1_0000_0000
  }

  lemma DecimalOfCInt(u: UInt32)
    ensures |IntToDecimal(AsCInt(u))| <= 11
  {
    var x := AsCInt(u);
    assert Pow10(10) == 10_000_000_000;
    if x < 0 {
      DecimalWidth(-x, 10);
    } else {
      DecimalWidth(x, 10);
    }
  }

  /** The text snprintf(snort_id, 1024, "%d.%d.%d", gid, sid, rev) produces;
      it always fits the buffer, so nothing is truncated. */
  function SnortId(k: Key): (r: string)
    ensures |r| < SNORT_ID_BUFFER
  {
    DecimalOfCInt(k.gid);
    DecimalOfCInt(k.sid);
    DecimalOfCInt(k.rev);
    IntToDecimal(AsCInt(k.gid)) + "." + IntToDecimal(AsCInt(k.sid)) + "." + IntToDecimal(AsCInt(k.rev))
  }

  lemma NoDotInDecimal(x: int)
    ensures '.' !in IntToDecimal(x)
  {
    if x < 0 {
      assert IntToDecimal(x) == "-" + NatToDecimal(-x);
    }
  }

  /** Distinct keys have distinct snort-id texts, so a knowledge file names
      at most one signature. */
  lemma {:induction false} SnortIdInjective(k1: Key, k2: Key)
    ensures SnortId(k1) == SnortId(k2) ==> k1 == k2
  {
    if SnortId(k1) == SnortId(k2) {
      var g1, s1, r1 := IntToDecimal(AsCInt(k1.gid)), IntToDecimal(AsCInt(k1.sid)), IntToDecimal(AsCInt(k1.rev));
      var g2, s2, r2 := IntToDecimal(AsCInt(k2.gid)), IntToDecimal(AsCInt(k2.sid)), IntToDecimal(AsCInt(k2.rev));
      NoDotInDecimal(AsCInt(k1.gid));
      NoDotInDecimal(AsCInt(k2.gid));
      NoDotInDecimal(AsCInt(k1.sid));
      NoDotInDecimal(AsCInt(k2.sid));
      assert g1 + ['.'] + (s1 + "." + r1) == SnortId(k1);
      assert g2 + ['.'] + (s2 + "." + r2) == SnortId(k2);
      SplitAtSeparator(g1, s1 + "." + r1, g2, s2 + "." + r2, '.');
      SplitAtSeparator(s1, r1, s2, r2, '.');
      IntToDecimalInjective(AsCInt(k1.gid), AsCInt(k2.gid));
      IntToDecimalInjective(AsCInt(k1.sid), AsCInt(k2.sid));
      IntToDecimalInjective(AsCInt(k1.rev), AsCInt(k2.rev));
    }
  }

  /** Text made of decimal digits and dots only. */
  predicate IsNumericText(s: string)
  {
    forall c :: c in s ==> IsDigit(c) || c == '.'
  }

  /** inet_ntop(AF_INET, ...): dotted decimal; never longer than the buffer allows. */
  function AddressText(a: Address): (r: string)
    ensures r != [] && IsNumericText(r)
    ensures |r| < INET_ADDRSTRLEN
  {
    DecimalWidth(a.b0, 3);
    DecimalWidth(a.b1, 3);
    DecimalWidth(a.b2, 3);
    DecimalWidth(a.b3, 3);
    NatToDecimal(a.b0) + "." + NatToDecimal(a.b1) + "." + NatToDecimal(a.b2) + "." + NatToDecimal(a.b3)
  }

  /** snprintf(buf, 10, "%d", port): the decimal port, never truncated. */
  function PortText(p: Port): (r: string)
    ensures r != [] && IsDigits(r)
    ensures |r| < PORT_BUFFER
  {
    DecimalWidth(p, 5);
    NatToDecimal(p)
  }

  /** The hyperalert attached to one alert: a private copy of the cached
      description whose condition arrays the macro substitution rewrites. */
  class AlertHyperalert {
    const key: Key
    const preconds: array<string>
    const postconds: array<string>

    /** The two condition arrays are separate buffers. */
    predicate Valid()
    {
      preconds != postconds
    }

    /** The deep copy of correlation.c:343-360: same key, same counts, every
        string duplicated into freshly allocated arrays. */
    constructor Copy(d: Desc)
      ensures Valid() && fresh(preconds) && fresh(postconds)
      ensures key == d.key
      ensures preconds.Length == |d.preconds| && preconds[..] == d.preconds
      ensures postconds.Length == |d.postconds| && postconds[..] == d.postconds
    {
      key := d.key;
      var pre := new string[|d.preconds|];
      for i := 0 to |d.preconds|
        invariant pre[..i] == d.preconds[..i]
      {
        pre[i] := d.preconds[i];
      }
      assert pre[..] == d.preconds;
      var post := new string[|d.postconds|];
      for i := 0 to |d.postconds|
        invariant post[..i] == d.postconds[..i]
        invariant pre[..] == d.preconds
      {
        post[i] := d.postconds[i];
      }
      assert post[..] == d.postconds;
      preconds := pre;
      postconds := post;
    }
  }

  /** A clustered alert as the clustering stage hands it over. Only the
      hyperalert field is written by the correlation core. */
  class Alert {
    const gid: UInt32
    const sid: UInt32
    const rev: UInt32
    const ipSrcAddr: Address
    const ipDstAddr: Address
    const tcpSrcPort: Port
    const tcpDstPort: Port
    var hyperalert: AlertHyperalert?

    constructor (gid: UInt32, sid: UInt32, rev: UInt32,
                 src: Address, dst: Address, srcPort: Port, dstPort: Port)
      ensures this.gid == gid && this.sid == sid && this.rev == rev
      ensures ipSrcAddr == src && ipDstAddr == dst
      ensures tcpSrcPort == srcPort && tcpDstPort == dstPort
      ensures hyperalert == null
    {
      this.gid, this.sid, this.rev := gid, sid, rev;
      ipSrcAddr, ipDstAddr := src, dst;
      tcpSrcPort, tcpDstPort := srcPort, dstPort;
      hyperalert := null;
    }

    /** The table key built from the alert (correlation.c:326-328). */
    function HyperalertKey(): Key
    {
      Key(gid, sid, rev)
    }

    function PacketFlow(): Flow
    {
      Flow(ipSrcAddr, ipDstAddr, tcpSrcPort, tcpDstPort)
    }
  }
}
