/**
 * Decoding of mail bytes into text.  Python's `bytes.decode(encoding)` is a
 * parameter of the model: it gives `Some(text)`, or `None` where Python
 * raises `UnicodeError` (the bytes are not valid in that encoding) or
 * `LookupError` (the encoding name is unknown).
 *
 * `FullTextDecoding` is what `MailFetcher.decodeFullText` computes
 * (mailFetcher.py:51-93); the method that performs it step by step is
 * `Fetcher.MailFetcher.DecodeFullText`.
 */
module Codec {
  import opened Wrappers
  import opened Strings

  newtype byte = x: int | 0 <= x < 256

  type Bytes = seq<byte>

  type Codec = (Bytes, string) -> Option<string>

  /** `text.encode()` for a text of ASCII characters: one byte per character. */
  function AsciiBytes(s: string): (b: Bytes)
    requires IsAscii(s)
    ensures |b| == |s|
    ensures forall i :: 0 <= i < |s| ==> b[i] as int == s[i] as int
  {
    seq(|s|, i requires 0 <= i < |s| => s[i] as int as byte)
  }

  /** The encodings tried on the header lines once no candidate decodes the whole mail. */
  const CommonEncodings: seq<string> := ["ascii", "latin1", "utf8"]

  /** The header line used when no encoding decodes the header lines. */
  const UnknownSenderLine: string := "From: (sender of unknown Unicode format headers)"

  /** The line appended to a mail whose content cannot be decoded. */
  const CannotDecodeLine: string := "--Sorry: mailtools cannot decode this mail content!--"

  /**
   * `[line.decode(enc) for line in lines]`: every line decoded under the
   * one encoding, or `None` when any line fails.
   */
  function DecodeAll(codec: Codec, lines: seq<Bytes>, enc: string): (r: Option<seq<string>>)
    ensures r.Some? <==> forall i :: 0 <= i < |lines| ==> codec(lines[i], enc).Some?
    ensures r.Some? ==> |r.value| == |lines|
    ensures r.Some? ==> forall i :: 0 <= i < |lines| ==> r.value[i] == codec(lines[i], enc).value
    decreases |lines|
  {
    if lines == [] then Some([])
    else
      var head := codec(lines[0], enc);
      var tail := DecodeAll(codec, lines[1..], enc);
      if head.Some? && tail.Some? then Some([head.value] + tail.value) else None
  }

  /**
   * The position in `encs` of the first encoding under which all of `lines`
   * decode, or `|encs|` when there is none.
   */
  function FirstDecodable(codec: Codec, encs: seq<string>, lines: seq<Bytes>): (k: nat)
    ensures k <= |encs|
    ensures forall j :: 0 <= j < k ==> DecodeAll(codec, lines, encs[j]).None?
    ensures k < |encs| ==> DecodeAll(codec, lines, encs[k]).Some?
    decreases |encs|
  {
    if encs == [] then 0
    else if DecodeAll(codec, lines, encs[0]).Some? then 0
    else 1 + FirstDecodable(codec, encs[1..], lines)
  }

  /** `lines.index(b'')`: the first empty line, or `|lines|` when the search raises. */
  function FirstBlank(lines: seq<Bytes>): (b: nat)
    ensures b <= |lines|
    ensures forall j :: 0 <= j < b ==> lines[j] != []
    ensures b < |lines| ==> lines[b] == []
    decreases |lines|
  {
    if lines == [] then 0
    else if lines[0] == [] then 0
    else 1 + FirstBlank(lines[1..])
  }

  /**
   * `list(set(...))` in the source: `kinds` lists each candidate encoding
   * exactly once, in whatever order the set produced.
   */
  predicate IsCandidateOrder(kinds: seq<string>, fetchEncoding: string, defaultEncoding: string)
  {
    NoDuplicates(kinds) &&
    (forall e :: e in kinds ==> e in [fetchEncoding, "ascii", "latin1", "utf8", defaultEncoding]) &&
    (forall e :: e in [fetchEncoding, "ascii", "latin1", "utf8", defaultEncoding] ==> e in kinds)
  }

  /** Why `decodeFullText` raises: the mail has no blank line after its headers. */
  datatype DecodeFailure = NoBlankLine

  /** The text put in place of the header lines when no common encoding decodes them. */
  function HeaderFallback(codec: Codec, hdrs: seq<Bytes>): seq<string>
  {
    var c := FirstDecodable(codec, CommonEncodings, hdrs);
    if c < |CommonEncodings| then DecodeAll(codec, hdrs, CommonEncodings[c]).value
    else match DecodeAll(codec, hdrs, "utf-8")
      case Some(t) => t
      case None => [UnknownSenderLine]
  }

  /** The lines `decodeFullText` returns for the mail `lines`, trying `kinds` in order. */
  function FullTextDecoding(codec: Codec, kinds: seq<string>, lines: seq<Bytes>): Result<seq<string>, DecodeFailure>
  {
    var k := FirstDecodable(codec, kinds, lines);
    if k < |kinds| then Ok(DecodeAll(codec, lines, kinds[k]).value)
    else
      var b := FirstBlank(lines);
      if b == |lines| then Err(NoBlankLine)
      else Ok(HeaderFallback(codec, lines[..b]) + ["", CannotDecodeLine])
  }

  /**
   * When some candidate decodes every line, the whole mail is decoded under
   * a single encoding: the first candidate in `kinds` that works.
   */
  lemma FullTextUsesFirstWorkingKind(codec: Codec, kinds: seq<string>, lines: seq<Bytes>, e: string)
    requires e in kinds && DecodeAll(codec, lines, e).Some?
    ensures exists j :: (0 <= j < |kinds| &&
      (forall i :: 0 <= i < j ==> DecodeAll(codec, lines, kinds[i]).None?) &&
      DecodeAll(codec, lines, kinds[j]).Some? &&
      FullTextDecoding(codec, kinds, lines) == Ok(DecodeAll(codec, lines, kinds[j]).value))
    ensures FullTextDecoding(codec, kinds, lines).Ok?
    ensures |FullTextDecoding(codec, kinds, lines).value| == |lines|
  {
    var k := FirstDecodable(codec, kinds, lines);
    var m :| 0 <= m < |kinds| && kinds[m] == e;
    assert k <= m;
  }

  /**
   * The fallback header lines are the header decoded under a common
   * encoding or UTF-8, or else the unknown-sender line.
   */
  lemma HeaderFallbackShape(codec: Codec, hdrs: seq<Bytes>)
    ensures (exists c :: c in CommonEncodings + ["utf-8"] && DecodeAll(codec, hdrs, c) == Some(HeaderFallback(codec, hdrs))) ||
      HeaderFallback(codec, hdrs) == [UnknownSenderLine]
  {
    var c := FirstDecodable(codec, CommonEncodings, hdrs);
    if c < |CommonEncodings| {
      assert CommonEncodings[c] in CommonEncodings + ["utf-8"];
    } else if DecodeAll(codec, hdrs, "utf-8").Some? {
      assert "utf-8" in CommonEncodings + ["utf-8"];
    }
  }

  /**
   * When no candidate decodes the mail, the result is the header lines
   * (decoded under a common encoding, under UTF-8, or replaced by the
   * unknown-sender line) followed by an empty line and the apology line;
   * without a blank line the call raises.
   */
  lemma UndecodableMailShape(codec: Codec, kinds: seq<string>, lines: seq<Bytes>)
    requires forall e :: e in kinds ==> DecodeAll(codec, lines, e).None?
    ensures FullTextDecoding(codec, kinds, lines).Err? <==> forall j :: 0 <= j < |lines| ==> lines[j] != []
    ensures FullTextDecoding(codec, kinds, lines).Ok? ==>
      var r := FullTextDecoding(codec, kinds, lines).value;
      var head := r[..|r| - 2];
      |r| >= 2 && r[|r| - 2..] == ["", CannotDecodeLine] &&
      ((exists c :: c in CommonEncodings + ["utf-8"] && DecodeAll(codec, lines[..FirstBlank(lines)], c) == Some(head)) ||
       head == [UnknownSenderLine])
  {
    var b := FirstBlank(lines);
    if b < |lines| {
      var hdrs := lines[..b];
      var head := HeaderFallback(codec, hdrs);
      var r := head + ["", CannotDecodeLine];
      assert FullTextDecoding(codec, kinds, lines) == Ok(r);
      assert r[..|r| - 2] == head;
      assert r[|r| - 2..] == ["", CannotDecodeLine];
      HeaderFallbackShape(codec, hdrs);
    }
  }

  /**
   * Latin-1 gives a character for every byte, so with it among the
   * candidates (as it always is) the fallback is never taken: the mail is
   * decoded line for line under the first candidate that works.
   */
  lemma Latin1LeavesNoUndecodableMail(codec: Codec, kinds: seq<string>, lines: seq<Bytes>)
    requires "latin1" in kinds
    requires forall b: Bytes :: codec(b, "latin1").Some?
    ensures DecodeAll(codec, lines, FirstWorkingKind(codec, kinds, lines)).Some?
    ensures FullTextDecoding(codec, kinds, lines) == Ok(DecodeAll(codec, lines, FirstWorkingKind(codec, kinds, lines)).value)
    ensures |FullTextDecoding(codec, kinds, lines).value| == |lines|
  {
    assert DecodeAll(codec, lines, "latin1").Some?;
    FullTextUsesFirstWorkingKind(codec, kinds, lines, "latin1");
  }

  /** The candidate `FullTextDecoding` settles on, or "" when there is none. */
  function FirstWorkingKind(codec: Codec, kinds: seq<string>, lines: seq<Bytes>): string
  {
    var k := FirstDecodable(codec, kinds, lines);
    if k < |kinds| then kinds[k] else ""
  }

  /**
   * The order `set()` gives the candidates matters only when several of
   * them decode the mail: when exactly one does, every order gives the
   * same text.
   */
  lemma DecodingOrderIrrelevantForUniqueKind(codec: Codec, kinds1: seq<string>, kinds2: seq<string>, lines: seq<Bytes>, e: string)
    requires forall x :: x in kinds1 <==> x in kinds2
    requires e in kinds1 && DecodeAll(codec, lines, e).Some?
    requires forall x :: x in kinds1 && x != e ==> DecodeAll(codec, lines, x).None?
    ensures FullTextDecoding(codec, kinds1, lines) == FullTextDecoding(codec, kinds2, lines)
    ensures FullTextDecoding(codec, kinds1, lines) == Ok(DecodeAll(codec, lines, e).value)
  {
    var k1 := FirstDecodable(codec, kinds1, lines);
    var k2 := FirstDecodable(codec, kinds2, lines);
    FullTextUsesFirstWorkingKind(codec, kinds1, lines, e);
    FullTextUsesFirstWorkingKind(codec, kinds2, lines, e);
    assert kinds1[k1] in kinds1 && kinds2[k2] in kinds2;
  }
}
