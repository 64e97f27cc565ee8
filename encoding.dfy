/**
 * `DetectFileEncoding`: the byte-order mark at the start of an exported
 * skeleton file decides the encoding used to read it and write it back.
 * UTF-8's mark is EF BB BF (section 6 of RFC 3629), UTF-16's is FF FE for
 * little-endian and FE FF for big-endian (section 3.2 of RFC 2781), and
 * UTF-32 little-endian's is FF FE 00 00.
 */
module Encoding {
  import opened Wrappers

  newtype byte = b: int | 0 <= b < 256

  datatype TextEncoding = Utf8WithBom | Utf16LittleEndian | Utf16BigEndian | Utf32LittleEndian | Utf8WithoutBom

  /** The byte-order mark each encoding writes. */
  function Preamble(e: TextEncoding): seq<byte> {
    match e
    case Utf8WithBom => [0xEF, 0xBB, 0xBF]
    case Utf16LittleEndian => [0xFF, 0xFE]
    case Utf16BigEndian => [0xFE, 0xFF]
    case Utf32LittleEndian => [0xFF, 0xFE, 0x00, 0x00]
    case Utf8WithoutBom => []
  }

  /** One test of the detection: a mark and the encoding it signals. */
  datatype MarkTest = MarkTest(mark: seq<byte>, encoding: TextEncoding)

  predicate StartsWith(bytes: seq<byte>, mark: seq<byte>) {
    |mark| <= |bytes| && bytes[..|mark|] == mark
  }

  /** The encoding of the first test whose mark starts `bom`; UTF-8
      without a mark when none does. */
  function Classify(bom: seq<byte>, tests: seq<MarkTest>): (r: TextEncoding)
    ensures r == Utf8WithoutBom || exists i :: 0 <= i < |tests| && r == tests[i].encoding
  {
    if tests == [] then Utf8WithoutBom
    else if StartsWith(bom, tests[0].mark) then tests[0].encoding
    else
      var r := Classify(bom, tests[1..]);
      assert r != Utf8WithoutBom ==> exists i :: 1 <= i < |tests| && r == tests[i].encoding by {
        if r != Utf8WithoutBom {
          var i :| 0 <= i < |tests[1..]| && r == tests[1..][i].encoding;
          assert tests[i + 1] == tests[1..][i];
        }
      }
      r
  }

  /** Four tests are made one after the other. */
  lemma ClassifyFour(bom: seq<byte>, tests: seq<MarkTest>)
    requires |tests| == 4
    ensures Classify(bom, tests) ==
            if StartsWith(bom, tests[0].mark) then tests[0].encoding
            else if StartsWith(bom, tests[1].mark) then tests[1].encoding
            else if StartsWith(bom, tests[2].mark) then tests[2].encoding
            else if StartsWith(bom, tests[3].mark) then tests[3].encoding
            else Utf8WithoutBom
  {
    var t1 := tests[1..];
    var t2 := t1[1..];
    var t3 := t2[1..];
    assert t1[0] == tests[1] && t2[0] == tests[2] && t3[0] == tests[3] && t3[1..] == [];
    assert Classify(bom, t3) == if StartsWith(bom, tests[3].mark) then tests[3].encoding else Utf8WithoutBom;
    assert Classify(bom, t2) == if StartsWith(bom, tests[2].mark) then tests[2].encoding else Classify(bom, t3);
    assert Classify(bom, t1) == if StartsWith(bom, tests[1].mark) then tests[1].encoding else Classify(bom, t2);
  }

  /** The tests of `DetectFileEncoding`, in the order the code makes them:
      the FF FE test comes before the FF FE 00 00 test. */
  const AsWrittenTests: seq<MarkTest> := [
    MarkTest(Preamble(Utf8WithBom), Utf8WithBom),
    MarkTest(Preamble(Utf16LittleEndian), Utf16LittleEndian),
    MarkTest(Preamble(Utf16BigEndian), Utf16BigEndian),
    MarkTest(Preamble(Utf32LittleEndian), Utf32LittleEndian)
  ]

  /** The same tests with the longer mark first, as intended. */
  const Tests: seq<MarkTest> := [
    MarkTest(Preamble(Utf8WithBom), Utf8WithBom),
    MarkTest(Preamble(Utf32LittleEndian), Utf32LittleEndian),
    MarkTest(Preamble(Utf16LittleEndian), Utf16LittleEndian),
    MarkTest(Preamble(Utf16BigEndian), Utf16BigEndian)
  ]

  /** `DetectFileEncoding` over the first four bytes. `content` is the
      file, `None` when it cannot be opened. `ReadExactly(bom, 0, 4)`
      throws on a file shorter than four bytes, and every exception leads to
      UTF-8 without a mark. */
  function DetectWith(content: Option<seq<byte>>, tests: seq<MarkTest>): (r: TextEncoding)
    ensures content.None? || |content.value| < 4 ==> r == Utf8WithoutBom
  {
    if content.None? || |content.value| < 4 then Utf8WithoutBom
    else Classify(content.value[..4], tests)
  }

  /** `DetectFileEncoding` as written. */
  function DetectAsWritten(content: Option<seq<byte>>): TextEncoding {
    DetectWith(content, AsWrittenTests)
  }

  /** The detection as intended. */
  function Detect(content: Option<seq<byte>>): TextEncoding {
    DetectWith(content, Tests)
  }

  /** What the code classifies: EF BB BF is UTF-8, FF FE is UTF-16
      little-endian (with whatever follows), FE FF is UTF-16 big-endian,
      anything else UTF-8 without a mark; the UTF-32 branch is never taken. */
  lemma AsWrittenClassification(content: Option<seq<byte>>)
    ensures DetectAsWritten(content) == Utf8WithBom <==>
              content.Some? && |content.value| >= 4 && content.value[..3] == [0xEF, 0xBB, 0xBF]
    ensures DetectAsWritten(content) == Utf16LittleEndian <==>
              content.Some? && |content.value| >= 4 && content.value[..2] == [0xFF, 0xFE]
    ensures DetectAsWritten(content) == Utf16BigEndian <==>
              content.Some? && |content.value| >= 4 && content.value[..2] == [0xFE, 0xFF]
    ensures DetectAsWritten(content) != Utf32LittleEndian
  {
    if content.Some? && |content.value| >= 4 {
      var bom := content.value[..4];
      assert bom[..3] == content.value[..3] && bom[..2] == content.value[..2];
      ClassifyFour(bom, AsWrittenTests);
      assert StartsWith(bom, Preamble(Utf32LittleEndian)) ==> bom[..2] == bom[..4][..2] == [0xFF, 0xFE];
      assert bom[..3] == [0xEF, 0xBB, 0xBF] ==> bom[0] == 0xEF;
      assert bom[..2] == [0xFF, 0xFE] ==> bom[0] == 0xFF;
      assert bom[..2] == [0xFE, 0xFF] ==> bom[0] == 0xFE;
    }
  }

  /** A UTF-32 little-endian file is read as UTF-16 little-endian. */
  lemma AsWrittenMisreadsUtf32()
    ensures DetectAsWritten(Some(Preamble(Utf32LittleEndian) + [0x7B, 0x00, 0x00, 0x00])) == Utf16LittleEndian
  {
    AsWrittenClassification(Some(Preamble(Utf32LittleEndian) + [0x7B, 0x00, 0x00, 0x00]));
    assert (Preamble(Utf32LittleEndian) + [0x7B, 0x00, 0x00, 0x00])[..2] == [0xFF, 0xFE];
  }

  /** As intended, every mark is recognised: a file written with a mark is
      detected as written, provided it holds at least four bytes and, for
      UTF-16 little-endian, does not start with a NUL character (FF FE 00 00
      is the UTF-32 mark). */
  lemma DetectPreamble(e: TextEncoding, body: seq<byte>)
    requires e != Utf8WithoutBom
    requires |Preamble(e) + body| >= 4
    requires e == Utf16LittleEndian ==> body[..2] != [0x00, 0x00]
    ensures Detect(Some(Preamble(e) + body)) == e
  {
    var c := Preamble(e) + body;
    var bom := c[..4];
    assert bom[..|Preamble(e)|] == Preamble(e);
    ClassifyFour(bom, Tests);
    if e == Utf8WithBom {
      assert StartsWith(bom, Tests[0].mark);
    } else if e == Utf32LittleEndian {
      assert bom[0] == 0xFF && StartsWith(bom, Tests[1].mark);
    } else if e == Utf16LittleEndian {
      MarkThenBody(Preamble(e), body);
      assert bom[0] == 0xFF && bom[..4] == bom;
      assert StartsWith(bom, Tests[2].mark);
    } else {
      assert bom[0] == 0xFE && StartsWith(bom, Tests[3].mark);
    }
  }

  /** The two bytes after a two-byte mark are the body's first two. */
  lemma MarkThenBody(mark: seq<byte>, body: seq<byte>)
    requires |mark| == 2 && |body| >= 2
    ensures (mark + body)[..4][2..4] == body[..2]
  {
    var c := mark + body;
    assert c[2] == body[0] && c[3] == body[1];
  }

  /** As intended, bytes that start with no mark are UTF-8 without a mark. */
  lemma DetectWithoutMark(content: seq<byte>)
    requires |content| >= 4
    requires forall t :: t in Tests ==> !StartsWith(content, t.mark)
    ensures Detect(Some(content)) == Utf8WithoutBom
  {
    var bom := content[..4];
    forall t | t in Tests ensures !StartsWith(bom, t.mark) {
      assert bom[..|t.mark|] == content[..|t.mark|];
    }
    ClassifyFour(bom, Tests);
  }
}
