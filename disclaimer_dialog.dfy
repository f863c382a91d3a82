/** The disclaimer the creditor confirms before a notice is created: on
    confirmation it reads the caller's IP address, hashes it together with the
    time, and hands the address and the hash in lower-case hexadecimal
    (section 8 of RFC 4648) to its parent. */
module DisclaimerDialog {
  import opened Text
  import opened Notices

  type Byte = b: nat | b < 256

  /** The text the creator hash is taken over: the address, a dash, and the
      ISO time. */
  function HashInput(ip: string, timestamp: string): (r: string)
    ensures |r| == |ip| + 1 + |timestamp|
  {
    ip + "-" + timestamp
  }

  /** An address without a dash (every IPv4 and IPv6 address) is the part of
      the hash input before its first dash, and the time is everything after
      it, so the hashed text determines both. */
  lemma HashInputSplits(ip: string, timestamp: string)
    requires forall i :: 0 <= i < |ip| ==> ip[i] != '-'
    ensures var s := HashInput(ip, timestamp);
            s[|ip|] == '-' && (forall i :: 0 <= i < |ip| ==> s[i] != '-')
            && s[..|ip|] == ip && s[|ip| + 1..] == timestamp
  {
    var s := HashInput(ip, timestamp);
    assert s[..|ip|] == ip;
    assert s[|ip| + 1..] == timestamp;
  }

  // ---------------------------------------------------------------------------
  // Bytes to hexadecimal

  /** `b.toString(16)`: the base-16 digits of b without leading zeros. */
  function ToHex(b: Byte): (r: string)
    ensures 1 <= |r| <= 2
  {
    if b < 16 then [HexDigit(b)] else [HexDigit(b / 16), HexDigit(b % 16)]
  }

  /** `s.padStart(2, '0')`. */
  function PadStart2(s: string): (r: string)
    ensures |s| < 2 ==> r == seq(2 - |s|, _ => '0') + s
    ensures |s| >= 2 ==> r == s
    decreases 2 - |s|
  {
    if |s| >= 2 then s else PadStart2("0" + s)
  }

  /** One byte as two hex digits: the padding puts back the leading zero that
      `toString(16)` leaves out, so every byte gives its high digit and then
      its low digit, in lower case. */
  function ByteHex(b: Byte): (r: string)
    ensures r == [HexDigit(b / 16), HexDigit(b % 16)]
  {
    PaddedDigits(b);
    PadStart2(ToHex(b))
  }

  lemma PaddedDigits(b: Byte)
    ensures PadStart2(ToHex(b)) == [HexDigit(b / 16), HexDigit(b % 16)]
  {
    if b < 16 {
      var r := PadStart2(ToHex(b));
      assert r[1..] == [HexDigit(b)];
      assert r == "0" + [HexDigit(b)];
    }
  }

  /** `bytes.map(b => b.toString(16).padStart(2, '0')).join('')`. */
  function HexEncode(bytes: seq<Byte>): (r: string)
    ensures |r| == 2 * |bytes|
    ensures forall i :: 0 <= i < |r| ==> IsHexDigit(r[i]) && !('A' <= r[i] <= 'Z')
  {
    if bytes == [] then [] else ByteHex(bytes[0]) + HexEncode(bytes[1..])
  }

  /** Reads a hex text back, two digits per byte; either case is accepted. */
  function HexDecode(s: string): (r: Option<seq<Byte>>)
    ensures r.Some? ==> 2 * |r.value| == |s|
    decreases |s|
  {
    if s == [] then Some([])
    else if |s| < 2 || !IsHexDigit(s[0]) || !IsHexDigit(s[1]) then None
    else match HexDecode(s[2..])
      case None => None
      case Some(rest) => Some([16 * HexValue(s[0]) + HexValue(s[1])] + rest)
  }

  /** The hash text gives back the digest's bytes, in order. */
  lemma {:induction false} HexRoundTrip(bytes: seq<Byte>)
    ensures HexDecode(HexEncode(bytes)) == Some(bytes)
  {
    if bytes != [] {
      var b := bytes[0];
      var s := HexEncode(bytes);
      assert s[..2] == ByteHex(b) && s[2..] == HexEncode(bytes[1..]);
      HexDigitRoundTrip(b / 16);
      HexDigitRoundTrip(b % 16);
      HexRoundTrip(bytes[1..]);
      assert [b] + bytes[1..] == bytes;
    }
  }

  /** Different digests give different hash texts. */
  lemma HexEncodeInjective(a: seq<Byte>, b: seq<Byte>)
    requires HexEncode(a) == HexEncode(b)
    ensures a == b
  {
    HexRoundTrip(a);
    HexRoundTrip(b);
  }

  /** A SHA-256 digest (32 bytes) becomes a 64-character hash. */
  lemma Sha256HexLength(bytes: seq<Byte>)
    requires |bytes| == 32
    ensures |HexEncode(bytes)| == 64
  {
  }

  // ---------------------------------------------------------------------------
  // The dialog

  /** What `onConfirm` receives. */
  datatype CreatorData = CreatorData(ip: string, hash: string)

  /** The two buttons: both are disabled while the confirmation runs, and
      the confirm button then reads "Processando...". */
  datatype Buttons = Buttons(cancelEnabled: bool, confirmEnabled: bool, confirmLabel: string)

  function ButtonsOf(isLoading: bool): (b: Buttons)
    ensures b.cancelEnabled == !isLoading && b.confirmEnabled == !isLoading
    ensures b.confirmLabel == (if isLoading then "Processando..." else "Li e Aceito")
  {
    Buttons(!isLoading, !isLoading, if isLoading then "Processando..." else "Li e Aceito")
  }

  class Dialog {
    var isLoading: bool
    /** The data handed to `onConfirm`, oldest first. */
    var confirmed: seq<CreatorData>

    constructor ()
      ensures !isLoading && confirmed == []
    {
      isLoading := false;
      confirmed := [];
    }

    function Buttons(): Buttons
      reads this
    {
      ButtonsOf(isLoading)
    }

    /** `handleConfirm`. `ipReply` is the address service's answer (None when
        the request fails), `timestamp` the clock reading in ISO form, and
        `digest` stands for SHA-256 over the UTF-8 bytes of a text, which
        fails when `digestFails`. The parent hears of the address and the hex
        digest of `ip-timestamp` only when both steps succeed; the loading
        flag ends false on every path. */
    method HandleConfirm(ipReply: Option<string>, timestamp: string, digest: string -> seq<Byte>, digestFails: bool)
      returns (sent: Option<CreatorData>)
      modifies this
      ensures !isLoading
      ensures sent.Some? <==> ipReply.Some? && !digestFails
      ensures sent.Some? ==>
                sent.value.ip == ipReply.value
                && sent.value.hash == HexEncode(digest(HashInput(ipReply.value, timestamp)))
                && confirmed == old(confirmed) + [sent.value]
      ensures sent.None? ==> confirmed == old(confirmed)
    {
      isLoading := true;
      sent := None;
      if ipReply.Some? && !digestFails {
        var ip := ipReply.value;
        var hash := HexEncode(digest(HashInput(ip, timestamp)));
        sent := Some(CreatorData(ip, hash));
        confirmed := confirmed + [CreatorData(ip, hash)];
      }
      isLoading := false;
    }
  }
}
