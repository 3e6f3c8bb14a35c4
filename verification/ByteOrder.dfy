/**
 * Registers in memory and on the line: a little-endian host keeps the low byte first, the line carries the high
 * byte first, and get_regs, put_regs and swap_regs exchange the two in place.
 */
module ByteOrder {
  import opened Words

  /** The registers that a little-endian host sees in memory. */
  function HostWords(s: seq<byte>): (ws: seq<u16>)
    ensures |ws| == |s| / 2
    ensures forall k {:trigger ws[k]} :: 0 <= k < |ws| ==> ws[k] == U16(s[2 * k + 1], s[2 * k])
  {
    seq(|s| / 2, k requires 0 <= k < |s| / 2 => U16(s[2 * k + 1], s[2 * k]))
  }

  /** t is s with the two bytes of every register exchanged. */
  ghost predicate Exchanged(s: seq<byte>, t: seq<byte>) {
    && |t| == |s| && |s| % 2 == 0
    && forall k {:trigger ExchangedAt(s, t, k)} :: 0 <= k < |s| / 2 ==> ExchangedAt(s, t, k)
  }

  ghost predicate ExchangedAt(s: seq<byte>, t: seq<byte>, k: nat)
    requires 2 * k + 1 < |s| && |t| == |s|
  {
    t[2 * k] == s[2 * k + 1] && t[2 * k + 1] == s[2 * k]
  }

  lemma ExchangedTwice(s: seq<byte>, t: seq<byte>, u: seq<byte>)
    requires Exchanged(s, t) && Exchanged(t, u)
    ensures u == s
  {
    forall i | 0 <= i < |s|
      ensures u[i] == s[i]
    {
      assert ExchangedAt(s, t, i / 2) && ExchangedAt(t, u, i / 2);
      assert i == 2 * (i / 2) || i == 2 * (i / 2) + 1;
    }
  }

  /** What the host sees after the exchange is what the line carried. */
  lemma HostSeesLine(s: seq<byte>, t: seq<byte>)
    requires Exchanged(s, t)
    ensures HostWords(t) == WordsOf(s)
  {
    forall k | 0 <= k < |s| / 2
      ensures HostWords(t)[k] == WordsOf(s)[k]
    {
      assert ExchangedAt(s, t, k);
    }
  }

  /** What the host stored goes on the line most significant byte first. */
  lemma LineCarriesHost(s: seq<byte>, t: seq<byte>)
    requires Exchanged(s, t)
    ensures t == BeAll(HostWords(s))
  {
    var ws := HostWords(s);
    forall i | 0 <= i < |s|
      ensures t[i] == BeAll(ws)[i]
    {
      var k := i / 2;
      assert ExchangedAt(s, t, k);
      BeAllAt(ws, k);
      assert ws[k] == U16(s[2 * k + 1], s[2 * k]);
      assert i == 2 * k || i == 2 * k + 1;
    }
  }

  /** swap_regs: the last register first, each by one assignment. */
  method SwapRegs(data: array<byte>, at: nat, n: nat)
    requires at + 2 * n <= data.Length
    modifies data
    ensures Exchanged(old(data[at..at + 2 * n]), data[at..at + 2 * n])
    ensures data[..at] == old(data[..at]) && data[at + 2 * n..] == old(data[at + 2 * n..])
  {
    var k := n;
    while k > 0
      invariant 0 <= k <= n
      invariant data[..at + 2 * k] == old(data[..at + 2 * k])
      invariant forall j :: k <= j < n ==>
        data[at + 2 * j] == old(data[at + 2 * j + 1]) && data[at + 2 * j + 1] == old(data[at + 2 * j])
      invariant data[at + 2 * n..] == old(data[at + 2 * n..])
    {
      k := k - 1;
      assert data[at + 2 * k] == old(data[..])[at + 2 * k] && data[at + 2 * k + 1] == old(data[..])[at + 2 * k + 1];
      data[at + 2 * k], data[at + 2 * k + 1] := data[at + 2 * k + 1], data[at + 2 * k];
    }
    ghost var s, t := old(data[at..at + 2 * n]), data[at..at + 2 * n];
    forall j | 0 <= j < n
      ensures ExchangedAt(s, t, j)
    {
      assert s[2 * j] == old(data[at + 2 * j]) && s[2 * j + 1] == old(data[at + 2 * j + 1]);
    }
  }

  /** A callback fills in registers as the host stores them. */
  method StoreHost(data: array<byte>, at: nat, registers: seq<u16>)
    requires at + 2 * |registers| <= data.Length
    modifies data
    ensures HostWords(data[at..at + 2 * |registers|]) == registers
    ensures data[..at] == old(data[..at])
  {
    for i := 0 to |registers|
      invariant data[..at] == old(data[..at])
      invariant forall j :: 0 <= j < i ==> U16(data[at + 2 * j + 1], data[at + 2 * j]) == registers[j]
    {
      data[at + 2 * i] := registers[i] % 0x100;
      data[at + 2 * i + 1] := registers[i] / 0x100;
    }
    ghost var s := data[at..at + 2 * |registers|];
    forall j | 0 <= j < |registers|
      ensures HostWords(s)[j] == registers[j]
    {
      assert s[2 * j] == data[at + 2 * j] && s[2 * j + 1] == data[at + 2 * j + 1];
    }
  }

  /** What the host sees in memory from a position on. */
  method LoadHost(data: array<byte>, at: nat, n: nat) returns (registers: seq<u16>)
    requires at + 2 * n <= data.Length
    ensures registers == HostWords(data[at..at + 2 * n])
  {
    registers := HostWords(data[at..at + 2 * n]);
  }
}
