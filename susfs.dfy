/** The magic-mount unmount request: a KernelSU ioctl request, and a SUSFS
    request whose path travels in a fixed 256-byte, NUL-padded C buffer. */
module Susfs {
  import opened Wrappers

  type byte = bv8

  const SusfsMaxLenPathname: nat := 256

  /** `KsuAddTryUmount`; `arg` stands for the pointer to the C string. */
  datatype KsuAddTryUmount = KsuAddTryUmount(arg: string, flags: int, mode: int)

  /** `StSusfsTryUmount`. */
  datatype SusfsTryUmount = SusfsTryUmount(targetPathname: seq<byte>, mntMode: int)

  function Zeros(n: nat): (r: seq<byte>)
    ensures |r| == n
    ensures forall i :: 0 <= i < n ==> r[i] == 0
  {
    if n == 0 then [] else Zeros(n - 1) + [0]
  }

  /** The C string a buffer holds: its bytes before the first NUL. */
  function CStr(buf: seq<byte>): (r: seq<byte>)
    ensures |r| <= |buf|
    ensures r == buf[..|r|]
    ensures 0 !in r
    ensures |r| < |buf| ==> buf[|r|] == 0
  {
    if buf == [] || buf[0] == 0 then [] else [buf[0]] + CStr(buf[1..])
  }

  /** The buffer the source fills: the path followed by NUL padding. */
  function Pathname(bytes: seq<byte>): seq<byte>
    requires |bytes| < SusfsMaxLenPathname
  {
    bytes + Zeros(SusfsMaxLenPathname - |bytes|)
  }

  /** Reading the buffer back as a C string gives the path: the length check
      leaves room for the terminating NUL. */
  lemma {:induction false} PathnameRoundTrip(bytes: seq<byte>)
    requires |bytes| < SusfsMaxLenPathname
    requires 0 !in bytes
    ensures |Pathname(bytes)| == SusfsMaxLenPathname
    ensures CStr(Pathname(bytes)) == bytes
  {
    var buf := Pathname(bytes);
    var r := CStr(buf);
    assert buf[..|bytes|] == bytes;
    assert buf[|bytes|] == 0;
  }

  /** The zero-filled buffer with the path copied over its start. */
  method FillPathname(bytes: seq<byte>) returns (buf: array<byte>)
    requires |bytes| < SusfsMaxLenPathname
    ensures fresh(buf)
    ensures buf[..] == Pathname(bytes)
  {
    buf := new byte[SusfsMaxLenPathname](_ => 0);
    var i := 0;
    while i < |bytes|
      invariant 0 <= i <= |bytes|
      invariant forall j :: 0 <= j < i ==> buf[j] == bytes[j]
      invariant forall j :: i <= j < buf.Length ==> buf[j] == 0
    {
      buf[i] := bytes[i];
      i := i + 1;
    }
    assert buf[..] == Pathname(bytes);
  }

  /** `send_unmountable`. `path` is the target as given and `canonical` its
      canonical form as bytes, `None` when it cannot be resolved. A path with
      an interior NUL cannot become a C string and is an error; otherwise the
      KernelSU request is always built, the SUSFS request only for a
      canonical path shorter than 256 bytes, and what the kernel answers to
      either is only logged. */
  method SendUnmountable(path: string, canonical: Option<seq<byte>>)
    returns (r: Outcome, ksuReq: Option<KsuAddTryUmount>, susfsReq: Option<SusfsTryUmount>)
    ensures r.Fail? <==> '\0' in path
    ensures ksuReq.Some? <==> '\0' !in path
    ensures ksuReq.Some? ==> ksuReq.value == KsuAddTryUmount(path, 2, 1)
    ensures susfsReq.Some? <==> '\0' !in path && canonical.Some? && |canonical.value| < SusfsMaxLenPathname
    ensures susfsReq.Some? ==>
      && susfsReq.value.mntMode == 1
      && |susfsReq.value.targetPathname| == SusfsMaxLenPathname
      && susfsReq.value.targetPathname[..|canonical.value|] == canonical.value
      && (forall i :: |canonical.value| <= i < SusfsMaxLenPathname ==> susfsReq.value.targetPathname[i] == 0)
  {
    ksuReq, susfsReq := None, None;
    if '\0' in path {
      r := Fail("nul byte found in path");
      return;
    }
    ksuReq := Some(KsuAddTryUmount(path, 2, 1));
    if canonical.Some? {
      var bytes := canonical.value;
      if |bytes| < SusfsMaxLenPathname {
        var buf := FillPathname(bytes);
        susfsReq := Some(SusfsTryUmount(buf[..], 1));
      }
    }
    r := Pass;
  }
}
