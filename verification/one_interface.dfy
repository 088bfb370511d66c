/** The record built for every interface the kernel reports
    (`OneInterface` in OneInterface.h): fixed-size C buffers for the name
    and the hardware address, plus the phy, mode and frequency words. */
module InterfaceRecord {
  import opened Common

  /** `uint8_t mac[6]`. */
  type Mac = s: seq<byte> | |s| == 6 witness [0, 0, 0, 0, 0, 0]

  /** `char name[17]`: room for a 16-character name and its terminator. */
  type NameBuffer = s: seq<char> | |s| == 17 witness seq(17, _ => '\0')

  /** The number of name characters `strncpy` is allowed to copy. */
  const NameCopyLimit := 16

  datatype OneInterface = OneInterface(
    phy: uint32,
    iftype: uint32,
    freq: uint32,
    macLength: int32,
    name: NameBuffer,
    mac: Mac)
  {
    /** The interface name as C code sees it: the buffer up to its first NUL. */
    function Name(): string {
      CString(name)
    }
  }

  /** The characters of a C string held in `s`: everything before the first
      NUL, or all of `s` when it holds none. */
  function CString(s: seq<char>): (r: string)
    ensures |r| <= |s| && r == s[..|r|]
    ensures '\0' !in r
    ensures |r| < |s| ==> s[|r|] == '\0'
  {
    if s == [] || s[0] == '\0' then [] else [s[0]] + CString(s[1..])
  }

  /** A string without NUL followed by a terminator (or by nothing) reads
      back as itself. */
  lemma {:induction false} CStringOfTerminated(p: string, rest: seq<char>)
    requires '\0' !in p
    requires rest == [] || rest[0] == '\0'
    ensures CString(p + rest) == p
  {
    if p != [] {
      assert (p + rest)[1..] == p[1..] + rest;
      CStringOfTerminated(p[1..], rest);
    }
  }

  function Nuls(n: nat): (r: seq<char>)
    ensures |r| == n && forall i | 0 <= i < n :: r[i] == '\0'
  {
    seq(n, _ => '\0')
  }

  /** C `strncpy(dst, src, n)`: the first `n` characters of the C string in
      `src`, padded with NULs up to `n` when the string is shorter. */
  function StrNCopy(src: seq<char>, n: nat): (r: seq<char>)
    ensures |r| == n
    ensures var c := CString(src);
      forall i | 0 <= i < n :: r[i] == (if i < |c| then c[i] else '\0')
  {
    var c := CString(src);
    if |c| >= n then c[..n] else c + Nuls(n - |c|)
  }

  /** The `OneInterface` constructor. `macAddr` is the memory the MAC pointer
      designates; `memcpy` reads six bytes from it. */
  function NewInterface(thePhy: uint32, ifaceName: seq<char>, macAddr: seq<byte>,
                        reportedMacLength: int32, ifaceType: uint32,
                        frequency: uint32): (r: OneInterface)
    requires |macAddr| >= 6
    ensures r.phy == thePhy && r.iftype == ifaceType && r.freq == frequency
    ensures r.macLength == reportedMacLength
    ensures var c := CString(ifaceName);
      r.Name() == (if |c| <= NameCopyLimit then c else c[..NameCopyLimit])
    ensures r.name[NameCopyLimit] == '\0'
    ensures r.mac == macAddr[..6]
  {
    var buffer := StrNCopy(ifaceName, NameCopyLimit) + ['\0'];
    var c := CString(ifaceName);
    var kept := if |c| <= NameCopyLimit then c else c[..NameCopyLimit];
    assert buffer == kept + Nuls(NameCopyLimit + 1 - |kept|);
    CStringOfTerminated(kept, Nuls(NameCopyLimit + 1 - |kept|));
    OneInterface(thePhy, ifaceType, frequency, reportedMacLength, buffer, macAddr[..6])
  }

  /** A record whose last name byte is the terminator (every record the
      constructor builds) has a name of at most 16 characters. */
  lemma NameFitsBuffer(i: OneInterface)
    requires i.name[NameCopyLimit] == '\0'
    ensures |i.Name()| <= NameCopyLimit
  {
  }
}
