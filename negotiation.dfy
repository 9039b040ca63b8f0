/** The choice of the subtype to request from a frame reader for each kind of
    frame source. */
module Negotiation {

  datatype Option<T> = None | Some(value: T)

  /** The kinds of frame source. */
  datatype SourceKind = Custom | Color | Infrared | Depth | Audio | Image | Metadata

  /** The name of the BGRA8 media encoding subtype. */
  const Bgra8Subtype: string := "BGRA8"

  /** Upper-case folding of one character, for the ASCII letters. */
  function UpperAscii(c: char): (u: char)
    ensures 'a' <= c <= 'z' ==> u as int == c as int - 32
    ensures !('a' <= c <= 'z') ==> u == c
  {
    if 'a' <= c <= 'z' then (c as int - 32) as char else c
  }

  /** Ordinal comparison that ignores case: same length and the same
      characters once both are folded to upper case. */
  function EqualsIgnoreCase(s: string, t: string): (b: bool)
    ensures b <==> |s| == |t| && forall i :: 0 <= i < |s| ==> UpperAscii(s[i]) == UpperAscii(t[i])
  {
    if |s| == 0 || |t| == 0 then |s| == |t|
    else UpperAscii(s[0]) == UpperAscii(t[0]) && EqualsIgnoreCase(s[1..], t[1..])
  }

  /** The subtype to request from the reader of a source of kind `kind` that
      offers `subtype`, or None when frames of that kind cannot be rendered:
      colour frames are always requested as BGRA8, depth frames only in
      D16, infrared frames only in L8 or D16, and no other kind at all. */
  function GetSubtypeForFrameReader(kind: SourceKind, subtype: string): (r: Option<string>)
    ensures r.Some? && kind != Color ==> r.value == subtype
    ensures kind == Color ==> r == Some(Bgra8Subtype)
    ensures kind !in {Color, Depth, Infrared} ==> r == None
  {
    match kind
    case Color => Some(Bgra8Subtype)
    case Depth => if EqualsIgnoreCase(subtype, "D16") then Some(subtype) else None
    case Infrared =>
      if EqualsIgnoreCase(subtype, "L8") || EqualsIgnoreCase(subtype, "D16") then Some(subtype) else None
    case _ => None
  }

  /** The spellings equal to D16 up to case. */
  lemma D16Spellings(s: string)
    ensures EqualsIgnoreCase(s, "D16") <==> s == "D16" || s == "d16"
  {
    if EqualsIgnoreCase(s, "D16") {
      assert UpperAscii(s[0]) == 'D' && UpperAscii(s[1]) == '1' && UpperAscii(s[2]) == '6';
      assert s == [s[0], s[1], s[2]];
    }
  }

  /** The spellings equal to L8 up to case. */
  lemma L8Spellings(s: string)
    ensures EqualsIgnoreCase(s, "L8") <==> s == "L8" || s == "l8"
  {
    if EqualsIgnoreCase(s, "L8") {
      assert UpperAscii(s[0]) == 'L' && UpperAscii(s[1]) == '8';
      assert s == [s[0], s[1]];
    }
  }

  /** A depth source is accepted exactly when it offers D16, in either case,
      and the offered subtype is then requested unchanged. */
  lemma DepthAcceptsOnlyD16(subtype: string)
    ensures GetSubtypeForFrameReader(Depth, subtype).Some? <==> subtype == "D16" || subtype == "d16"
    ensures GetSubtypeForFrameReader(Depth, subtype).Some? ==> GetSubtypeForFrameReader(Depth, subtype).value == subtype
  {
    D16Spellings(subtype);
  }

  /** An infrared source is accepted exactly when it offers L8 or D16, in
      either case, and the offered subtype is then requested unchanged. */
  lemma InfraredAcceptsL8OrD16(subtype: string)
    ensures GetSubtypeForFrameReader(Infrared, subtype).Some?
        <==> subtype in {"L8", "l8", "D16", "d16"}
    ensures GetSubtypeForFrameReader(Infrared, subtype).Some? ==> GetSubtypeForFrameReader(Infrared, subtype).value == subtype
  {
    D16Spellings(subtype);
    L8Spellings(subtype);
  }

  /** An infrared source offering L16 is not accepted. */
  lemma InfraredRejectsL16(subtype: string)
    requires subtype == "L16" || subtype == "l16"
    ensures GetSubtypeForFrameReader(Infrared, subtype) == None
  {
    InfraredAcceptsL8OrD16(subtype);
  }
}
