/**
 hOCR as the parser sees it: XML tokens whose attributes have been read.  The
 regular expressions that read a title are not modelled; what they yield is.
 */
module Hocr {

  datatype BBox = BBox(x1: int, y1: int, x2: int, y2: int)

  /** A title's bbox: absent, out of range for an int, or read. */
  datatype BoxField = NoBox | BadBox | HasBox(box: BBox)

  datatype Confidence = NoConfidence | BadConfidence | HasConfidence(value: real)

  datatype Title = Title(box: BoxField, confidence: Confidence, cuts: seq<int>)

  /** `size` is the byte length of the attribute's name space, name and value. */
  datatype Attr =
    | Id(value: string, size: nat)
    | Class(names: seq<string>, size: nat)
    | TitleAttr(title: Title, size: nat)
    | OtherAttr(size: nat)

  datatype Element = Element(name: string, attrs: seq<Attr>, content: string, children: seq<Element>)

  /** Comments, directives and processing instructions are `Other`. */
  datatype Token =
    | Start(name: string, attrs: seq<Attr>)
    | Text(text: string)
    | End
    | Other

  const MAX_DEPTH := 128
  const MAX_ANNOTATIONS := 10_000
  const MAX_ELEMENTS := 80_000
  const MAX_ATTRIBUTES := 64
  const MAX_ATTRIBUTE_BYTES := 65_536
  const MAX_WORD_BYTES := 4096

  predicate HasClass(attrs: seq<Attr>, name: string) {
    exists i :: 0 <= i < |attrs| && attrs[i].Class? && name in attrs[i].names
  }

  predicate IsWord(attrs: seq<Attr>) {
    HasClass(attrs, "ocrx_word")
  }

  predicate IsLine(attrs: seq<Attr>) {
    HasClass(attrs, "ocr_line")
  }

  function AttrBytes(attrs: seq<Attr>): nat {
    if |attrs| == 0 then 0 else AttrBytes(attrs[..|attrs| - 1]) + attrs[|attrs| - 1].size
  }

  predicate AttrsFit(attrs: seq<Attr>) {
    |attrs| <= MAX_ATTRIBUTES && AttrBytes(attrs) <= MAX_ATTRIBUTE_BYTES
  }
}
