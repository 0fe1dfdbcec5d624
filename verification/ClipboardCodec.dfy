/** Clipboard data on the wire (`mod proto` in client/src/clipboard.rs). */
module ClipboardCodec {
  import opened Basics
  import Utf8

  type Bytes = seq<byte>

  /** zstd, left uninterpreted: `compress` returns nothing when it fails. */
  datatype Packer = Packer(compress: Bytes -> Bytes, decompress: Bytes -> Bytes)

  datatype Data =
    | Text(text: string)
    | Rtf(text: string)
    | Html(text: string)
    | Rgba(width: nat, height: nat, pixels: Bytes)
    | Png(png: Bytes)
    | Svg(text: string)
    | Special(name: string, data: Bytes)
    | FileUrl(urls: seq<string>)

  datatype Format = TextFormat | RtfFormat | HtmlFormat | RgbaFormat | PngFormat | SvgFormat | SpecialFormat

  datatype Clipboard = Clipboard(format: Format, compress: bool, content: Bytes, width: int, height: int, specialName: string)

  /** `usize as i32` and back, on 64 bits. */
  function ToI32(n: nat): (i: int) {
    var m := n % 0x1_0000_0000;
    if m < 0x8000_0000 then m else m - 0x1_0000_0000
  }

  function FromI32(i: int): (n: int) {
    if i >= 0 then i else i + 0x1_0000_0000_0000_0000
  }

  /** Compressed if that is shorter, else `plain`. */
  function Pack(format: Format, data: Bytes, plain: Bytes, packer: Packer): Clipboard {
    var packed := packer.compress(data);
    var shorter := |packed| < |data|;
    Clipboard(format, shorter, if shorter then packed else plain, 0, 0, "")
  }

  /** `clipboard_data_to_proto`; the incompressible special format carries its
      name where its data should be, as the code has it. */
  function ToProto(d: Data, packer: Packer): Option<Clipboard> {
    match d
    case Text(s) => var b := Utf8.Encode(s); Some(Pack(TextFormat, b, b, packer))
    case Rtf(s) => var b := Utf8.Encode(s); Some(Pack(RtfFormat, b, b, packer))
    case Html(s) => var b := Utf8.Encode(s); Some(Pack(HtmlFormat, b, b, packer))
    case Rgba(w, h, b) => Some(Pack(RgbaFormat, b, b, packer).(width := ToI32(w), height := ToI32(h)))
    case Png(b) => Some(Clipboard(PngFormat, false, b, 0, 0, ""))
    case Svg(s) => var b := Utf8.Encode(s); Some(Pack(SvgFormat, b, b, packer))
    case Special(name, b) => Some(Pack(SpecialFormat, b, Utf8.Encode(name), packer).(specialName := name))
    case FileUrl(_) => None
  }

  function Content(c: Clipboard, packer: Packer): Bytes {
    if c.compress then packer.decompress(c.content) else c.content
  }

  function TextOf(b: Bytes, make: string -> Data): Option<Data> {
    match Utf8.Decode(b)
    case None => None
    case Some(s) => Some(make(s))
  }

  function FromProto(c: Clipboard, packer: Packer): Option<Data> {
    var b := Content(c, packer);
    match c.format
    case TextFormat => TextOf(b, s => Text(s))
    case RtfFormat => TextOf(b, s => Rtf(s))
    case HtmlFormat => TextOf(b, s => Html(s))
    case RgbaFormat => Some(Rgba(Nat(FromI32(c.width)), Nat(FromI32(c.height)), b))
    case PngFormat => Some(Png(b))
    case SvgFormat => Some(Svg(if Utf8.Decode(b).Some? then Utf8.Decode(b).value else ""))
    case SpecialFormat => Some(Special(c.specialName, b))
  }

  function Nat(i: int): nat { if i < 0 then 0 else i }

  // ----- which data survive the journey

  /** The decompressor undoes what was sent compressed. */
  predicate Unpacks(b: Bytes, packer: Packer) {
    |packer.compress(b)| < |b| ==> packer.decompress(packer.compress(b)) == b
  }

  predicate FitsI32(n: nat) {
    n < 0x8000_0000 || 0x1_0000_0000_0000_0000 - 0x8000_0000 <= n < 0x1_0000_0000_0000_0000
  }

  predicate Survives(d: Data, packer: Packer) {
    match d
    case Rgba(w, h, b) => FitsI32(w) && FitsI32(h) && Unpacks(b, packer)
    case Png(_) => true
    case Special(name, b) => if |packer.compress(b)| < |b| then Unpacks(b, packer) else b == Utf8.Encode(name)
    case FileUrl(_) => false
    case _ => Unpacks(Utf8.Encode(d.text), packer)
  }

  lemma I32RoundTrip(n: nat)
    ensures Nat(FromI32(ToI32(n))) == n <==> FitsI32(n)
  {
  }

  lemma TextSurvives(b: Bytes, s: string, packer: Packer)
    requires b == Utf8.Encode(s)
    ensures Utf8.Decode(Content(Pack(TextFormat, b, b, packer), packer)) == Some(s) <==> Unpacks(b, packer)
  {
    Utf8.DecodesExactlyEncodings(Content(Pack(TextFormat, b, b, packer), packer), s);
  }

  predicate IsText(d: Data) {
    d.Text? || d.Rtf? || d.Html? || d.Svg?
  }

  lemma TextRoundTrip(d: Data, packer: Packer)
    requires IsText(d)
    ensures FromProto(ToProto(d, packer).value, packer) == Some(d) <==> Survives(d, packer)
  {
    var b := Utf8.Encode(d.text);
    TextSurvives(b, d.text, packer);
    assert d.text == "" ==> b == [];
  }

  lemma OtherRoundTrip(d: Data, packer: Packer)
    requires !IsText(d)
    ensures (ToProto(d, packer).Some? && FromProto(ToProto(d, packer).value, packer) == Some(d)) <==> Survives(d, packer)
  {
    if d.Rgba? {
      I32RoundTrip(d.width);
      I32RoundTrip(d.height);
    }
  }

  /** Data come back as they were sent exactly when they survive. */
  lemma RoundTripExact(d: Data, packer: Packer)
    ensures (ToProto(d, packer).Some? && FromProto(ToProto(d, packer).value, packer) == Some(d)) <==> Survives(d, packer)
  {
    hide FromProto, Survives;
    if IsText(d) { TextRoundTrip(d, packer); } else { OtherRoundTrip(d, packer); }
  }

  /** An incompressible special format whose data are not its own name is lost. */
  lemma IncompressibleSpecialIsLost(name: string, data: Bytes, packer: Packer)
    requires |packer.compress(data)| >= |data| && data != Utf8.Encode(name)
    ensures ToProto(Special(name, data), packer).Some?
    ensures FromProto(ToProto(Special(name, data), packer).value, packer) == Some(Special(name, Utf8.Encode(name)))
  {
  }

  /** What is sent is never longer than the data, but for a special format that
      does not compress, which is its name. */
  lemma NeverGrows(d: Data, packer: Packer)
    requires d.Rgba? || IsText(d) || (d.Special? && |packer.compress(d.data)| < |d.data|)
    ensures ToProto(d, packer).Some?
    ensures var c := ToProto(d, packer).value;
            var plain := if d.Rgba? then d.pixels else if d.Special? then d.data else Utf8.Encode(d.text);
            |c.content| <= |plain| && (c.compress <==> |packer.compress(plain)| < |plain|)
  {
  }
}
