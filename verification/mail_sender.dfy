/**
 * Composing and sending mail: the Base64 rewrapping of attachment bodies,
 * the encoding and folding of headers, the assembly of the header list and
 * the recipients, the dispatch of attachments by content type, and the
 * append-only log of sent mail.  The SMTP session, the clock and the
 * filesystem are parameters.
 */
module Sender {
  import opened Wrappers
  import opened Strings
  import opened Codec
  import opened EmailPackage

  /** The length of a Base64 line in a MIME body (RFC 2045, section 6.8). */
  const LineLen: nat := 76

  /**
   * The width past which `encodeAddrHeader` folds an address header: the
   * program's own choice, below the 78-character line RFC 5322 (section
   * 2.1.1) recommends.
   */
  const FoldWidth: nat := 72

  /** `text[:n]`, `text[n:]` taken repeatedly until nothing is left. */
  function Chunks(s: string, n: nat): seq<string>
    requires n > 0
    decreases |s|
  {
    if s == [] then []
    else
      var k := if |s| < n then |s| else n;
      [s[..k]] + Chunks(s[k..], n)
  }

  /** `''.join(parts)`. */
  function Concat(parts: seq<string>): string
    decreases |parts|
  {
    if parts == [] then "" else parts[0] + Concat(parts[1..])
  }

  /**
   * The chunks put back together give the text; every chunk but the last
   * has exactly `n` characters and the last between 1 and `n`; a chunk of
   * a text without newlines has none.
   */
  lemma {:induction false} ChunksShape(s: string, n: nat)
    requires n > 0
    ensures Concat(Chunks(s, n)) == s
    ensures Chunks(s, n) == [] <==> s == []
    ensures forall j :: 0 <= j < |Chunks(s, n)| ==> 1 <= |Chunks(s, n)[j]| <= n
    ensures forall j :: 0 <= j < |Chunks(s, n)| - 1 ==> |Chunks(s, n)[j]| == n
    ensures '\n' !in s ==> forall j :: 0 <= j < |Chunks(s, n)| ==> '\n' !in Chunks(s, n)[j]
    decreases |s|
  {
    if s != [] {
      var k := if |s| < n then |s| else n;
      var cs, rest := Chunks(s, n), Chunks(s[k..], n);
      ChunksShape(s[k..], n);
      assert cs == [s[..k]] + rest;
      assert cs[1..] == rest;
      assert s[..k] + s[k..] == s;
      forall j | 0 <= j < |cs|
        ensures 1 <= |cs[j]| <= n && ('\n' !in s ==> '\n' !in cs[j])
      {
        if j > 0 {
          assert cs[j] == rest[j - 1];
          if '\n' !in s {
            assert forall c :: c in s[k..] ==> c in s;
          }
        } else if '\n' !in s {
          assert forall c :: c in s[..k] ==> c in s;
        }
      }
      forall j | 0 <= j < |cs| - 1
        ensures |cs[j]| == n
      {
        if j > 0 {
          assert cs[j] == rest[j - 1];
        } else {
          assert rest != [];
          assert s[k..] != [];
        }
      }
    }
  }

  /** Joining lines that hold no newline with "\n" and deleting the newlines concatenates them. */
  lemma {:induction false} RemoveNewlinesOfJoin(parts: seq<string>)
    requires forall j :: 0 <= j < |parts| ==> '\n' !in parts[j]
    ensures RemoveNewlines(Join(parts, "\n")) == Concat(parts)
    decreases |parts|
  {
    if |parts| == 1 {
      RemoveNewlinesNoop(parts[0]);
      assert Concat(parts) == parts[0] + Concat([]);
    } else if |parts| > 1 {
      var tail := parts[1..];
      RemoveNewlinesAround(parts[0], Join(tail, "\n"));
      RemoveNewlinesNoop(parts[0]);
      RemoveNewlinesOfJoin(tail);
    }
  }

  lemma RemoveNewlinesAround(a: string, b: string)
    ensures RemoveNewlines(a + "\n" + b) == RemoveNewlines(a) + RemoveNewlines(b)
  {
    var nl := "\n";
    assert RemoveNewlines(nl) == "" by {
      assert nl[1..] == "";
    }
    RemoveNewlinesAppend(a, nl);
    RemoveNewlinesAppend(a + nl, b);
  }

  /** The lines of a rewrapped Base64 payload. */
  function WrappedLines(text: string): seq<string>
  {
    Chunks(RemoveNewlines(text), LineLen)
  }

  /** The payload `fix_encode_base_64` leaves: the text without newlines, cut into lines of 76. */
  function Rewrapped(text: string): string
  {
    Join(WrappedLines(text), "\n")
  }

  /**
   * A rewrapped payload is its lines joined by "\n"; every line but the
   * last has 76 characters and the last between 1 and 76; no line holds a
   * newline; the lines together are the text without its newlines; an
   * empty (or all-newline) text gives the empty payload.
   */
  lemma RewrappedLines(text: string)
    ensures forall j :: 0 <= j < |WrappedLines(text)| ==>
      1 <= |WrappedLines(text)[j]| <= LineLen && '\n' !in WrappedLines(text)[j]
    ensures forall j :: 0 <= j < |WrappedLines(text)| - 1 ==> |WrappedLines(text)[j]| == LineLen
    ensures Concat(WrappedLines(text)) == RemoveNewlines(text)
    ensures Rewrapped(text) == "" <==> RemoveNewlines(text) == ""
  {
    ChunksShape(RemoveNewlines(text), LineLen);
    RewrapKeepsData(text);
  }

  /** Deleting the newlines of the rewrapped payload gives back the text without its newlines. */
  lemma RewrapKeepsData(text: string)
    ensures RemoveNewlines(Rewrapped(text)) == RemoveNewlines(text)
  {
    ChunksShape(RemoveNewlines(text), LineLen);
    RemoveNewlinesOfJoin(WrappedLines(text));
  }

  /** Rewrapping a rewrapped payload changes nothing. */
  lemma RewrapIdempotent(text: string)
    ensures Rewrapped(Rewrapped(text)) == Rewrapped(text)
  {
    RewrapKeepsData(text);
  }

  /**
   * `fix_encode_base_64`: the Base64 text `encode_base64` produced for
   * `data`, with its newlines deleted and cut into lines of 76.
   */
  method FixEncodeBase64(lib: EmailLib, data: Bytes) returns (payload: OutPayload)
    ensures payload == Base64Payload(Rewrapped(lib.encodeBase64(data)))
  {
    var text := RemoveNewlines(lib.encodeBase64(data));
    var lines: seq<string> := [];
    while text != []
      invariant lines + Chunks(text, LineLen) == WrappedLines(lib.encodeBase64(data))
      decreases |text|
    {
      var line := Prefix(text, LineLen);
      if |text| < LineLen {
        assert text[..|text|] == text && text[|text|..] == [];
      }
      assert Chunks(text, LineLen) == [line] + Chunks(SliceFrom(text, LineLen), LineLen);
      text := SliceFrom(text, LineLen);
      lines := lines + [line];
    }
    assert lines + [] == lines;
    payload := Base64Payload(Join(lines, "\n"));
  }

  /**
   * `encodeHeader`: ASCII text is left as it is; other text is encoded by
   * `make_header`, and left as it is when that raises.
   */
  function EncodeHeader(lib: EmailLib, text: string, enc: string): (r: string)
    ensures IsAscii(text) ==> r == text
    ensures !IsAscii(text) && lib.makeHeader(text, enc).Some? ==> r == lib.makeHeader(text, enc).value
    ensures lib.makeHeader(text, enc).None? ==> r == text
  {
    if IsAscii(text) then text
    else match lib.makeHeader(text, enc)
      case Some(h) => h
      case None => text
  }

  /** `make_header(...).encode()` gives RFC 2047 encoded words, which are ASCII. */
  ghost predicate AsciiHeaders(lib: EmailLib)
  {
    forall t, c :: lib.makeHeader(t, c).Some? ==> IsAscii(lib.makeHeader(t, c).value)
  }

  /**
   * With ASCII encoded words, an encoded header is ASCII unless
   * `make_header` refused it (then it is left as it was), and encoding it
   * again changes nothing.
   */
  lemma EncodeHeaderIdempotent(lib: EmailLib, text: string, enc: string)
    requires AsciiHeaders(lib)
    ensures IsAscii(text) || lib.makeHeader(text, enc).Some? ==> IsAscii(EncodeHeader(lib, text, enc))
    ensures EncodeHeader(lib, EncodeHeader(lib, text, enc), enc) == EncodeHeader(lib, text, enc)
  {
  }

  /**
   * The display name of one address as `encodeAddrHeader` encodes it: an
   * ASCII name as it is, another through `make_header`, `None` when that
   * raises.
   */
  function EncodedName(lib: EmailLib, name: string, enc: string): (r: Option<string>)
    ensures IsAscii(name) ==> r == Some(name)
    ensures !IsAscii(name) ==> r == lib.makeHeader(name, enc)
  {
    if IsAscii(name) then Some(name) else lib.makeHeader(name, enc)
  }

  /** Each (name, address) pair formatted with its encoded name. */
  function EncodedAddrs(lib: EmailLib, pairs: seq<(string, string)>, enc: string): (r: seq<string>)
    ensures |r| == |pairs|
    ensures forall j :: 0 <= j < |pairs| ==> r[j] == FormatAddr(lib, EncodedName(lib, pairs[j].0, enc), pairs[j].1)
  {
    seq(|pairs|, j requires 0 <= j < |pairs| => FormatAddr(lib, EncodedName(lib, pairs[j].0, enc), pairs[j].1))
  }

  /** The addresses joined by ", ", or by ",\n " once that is longer than 72 or holds a newline. */
  function FoldAddrs(encoded: seq<string>): string
  {
    var one := Join(encoded, ", ");
    if |one| > FoldWidth || '\n' in one then Join(encoded, ",\n ") else one
  }

  /**
   * A header of at most 72 characters without newlines stays on one line;
   * a longer one, or one holding a newline, is folded.
   */
  lemma FoldAddrsRule(encoded: seq<string>)
    ensures |Join(encoded, ", ")| <= FoldWidth && '\n' !in Join(encoded, ", ") ==>
      FoldAddrs(encoded) == Join(encoded, ", ")
    ensures |Join(encoded, ", ")| > FoldWidth ==> FoldAddrs(encoded) == Join(encoded, ",\n ")
    ensures '\n' in Join(encoded, ", ") ==> FoldAddrs(encoded) == Join(encoded, ",\n ")
  {
  }

  /** Joining with ",\n " and deleting the newlines gives the ", "-joined header. */
  lemma {:induction false} RemoveNewlinesOfFolded(parts: seq<string>)
    requires forall j :: 0 <= j < |parts| ==> '\n' !in parts[j]
    ensures RemoveNewlines(Join(parts, ",\n ")) == Join(parts, ", ")
    decreases |parts|
  {
    if |parts| == 1 {
      RemoveNewlinesNoop(parts[0]);
    } else if |parts| > 1 {
      var tail := parts[1..];
      assert RemoveNewlines(Join(tail, ",\n ")) == Join(tail, ", ") by {
        RemoveNewlinesOfFolded(tail);
      }
      assert RemoveNewlines(parts[0]) == parts[0] by {
        RemoveNewlinesNoop(parts[0]);
      }
      RemoveNewlinesFoldSeparator(parts[0], Join(tail, ",\n "));
    }
  }

  lemma RemoveNewlinesFoldSeparator(a: string, b: string)
    ensures RemoveNewlines(a + ",\n " + b) == RemoveNewlines(a) + ", " + RemoveNewlines(b)
  {
    var sep := ",\n ";
    assert RemoveNewlines(sep) == ", " by {
      assert sep[1..] == "\n " && sep[1..][1..] == " " && sep[1..][1..][1..] == "";
    }
    RemoveNewlinesAppend(a, sep);
    RemoveNewlinesAppend(a + sep, b);
  }

  /** Folding only inserts line breaks: with them deleted, the folded header is the one-line header. */
  lemma FoldingOnlyBreaksLines(encoded: seq<string>)
    requires forall j :: 0 <= j < |encoded| ==> '\n' !in encoded[j]
    ensures RemoveNewlines(FoldAddrs(encoded)) == Join(encoded, ", ")
  {
    RemoveNewlinesOfFolded(encoded);
    if FoldAddrs(encoded) == Join(encoded, ", ") {
      RemoveNewlinesNoop(Join(encoded, ", "));
    }
  }

  /**
   * `encodeAddrHeader` with the formatting inside the loop over the
   * addresses: every address of the header, with its name encoded,
   * joined and folded.
   */
  function EncodeAddrHeader(lib: EmailLib, text: string, enc: string): string
  {
    FoldAddrs(EncodedAddrs(lib, lib.getAddresses(text), enc))
  }

  /**
   * Every address of the header is kept, in order: with the folding line
   * breaks deleted, the encoded header is all the encoded addresses joined
   * by ", ".
   */
  lemma EncodeAddrHeaderKeepsEveryAddress(lib: EmailLib, text: string, enc: string)
    requires forall j :: 0 <= j < |lib.getAddresses(text)| ==> '\n' !in EncodedAddrs(lib, lib.getAddresses(text), enc)[j]
    ensures RemoveNewlines(EncodeAddrHeader(lib, text, enc)) == Join(EncodedAddrs(lib, lib.getAddresses(text), enc), ", ")
  {
    FoldingOnlyBreaksLines(EncodedAddrs(lib, lib.getAddresses(text), enc));
  }

  /**
   * `encodeAddrHeader` as written: the formatting and the append sit after
   * the loop, so only the last address is kept; with no address at all
   * the loop variables are unbound, and the `NameError` sends the header
   * to `encodeHeader` under its default encoding.
   */
  function EncodeAddrHeaderAsWritten(lib: EmailLib, text: string, enc: string): (r: string)
    ensures lib.getAddresses(text) == [] ==> r == EncodeHeader(lib, text, "utf-8")
  {
    var pairs := lib.getAddresses(text);
    if pairs == [] then EncodeHeader(lib, text, "utf-8")
    else
      var last := pairs[|pairs| - 1];
      FoldAddrs([FormatAddr(lib, EncodedName(lib, last.0, enc), last.1)])
  }

  /** As written, a header of several addresses comes out as its last address alone. */
  lemma EncodeAddrHeaderAsWrittenKeepsLast(lib: EmailLib, text: string, enc: string)
    requires lib.getAddresses(text) != []
    ensures EncodeAddrHeaderAsWritten(lib, text, enc) ==
      EncodedAddrs(lib, lib.getAddresses(text), enc)[|lib.getAddresses(text)| - 1]
  {
    var pairs := lib.getAddresses(text);
    var x := FormatAddr(lib, EncodedName(lib, pairs[|pairs| - 1].0, enc), pairs[|pairs| - 1].1);
    assert Join([x], ", ") == x && Join([x], ",\n ") == x;
  }

  /** A library whose address parser finds two plain addresses in any header. */
  function TwoAddressLib(): EmailLib
  {
    EmailLib(
      (t: string, h: bool) => None,
      (t: string) => None,
      (t: string) => [("", "a@x"), ("", "b@y")],
      (n: string, a: string) => a,
      (t: string, c: string) => None,
      (ct: string) => None,
      (f: string) => (None, None),
      (b: Bytes) => "",
      (m: Outgoing) => "")
  }

  /** `To: a@x, b@y` goes out as `b@y` as written, and as `a@x, b@y` when every address is kept. */
  lemma EncodeAddrHeaderDropsAddresses()
    ensures EncodeAddrHeaderAsWritten(TwoAddressLib(), "a@x, b@y", "utf-8") == "b@y"
    ensures EncodeAddrHeader(TwoAddressLib(), "a@x, b@y", "utf-8") == "a@x, b@y"
  {
    var lib := TwoAddressLib();
    var pairs := lib.getAddresses("a@x, b@y");
    assert IsAscii("");
    var enc := EncodedAddrs(lib, pairs, "utf-8");
    assert enc[0] == "a@x" && enc[1] == "b@y";
    assert enc == ["a@x", "b@y"];
    assert Join(enc, ", ") == "a@x" + ", " + "b@y";
    assert "a@x, b@y" == "a@x" + ", " + "b@y";
    EncodeAddrHeaderAsWrittenKeepsLast(lib, "a@x, b@y", "utf-8");
  }

  /**
   * The two encoders the extra headers go through: `addr` for each address
   * of a Cc or Bcc header, `text` for the value of any other header.
   */
  datatype Encoders = Encoders(addr: string -> string, text: string -> string)

  /** `encodeAddrHeader` and `encodeHeader` under the encoding `enc`. */
  function HeaderEncoders(lib: EmailLib, enc: string): (e: Encoders)
    ensures forall t :: e.addr(t) == EncodeAddrHeader(lib, t, enc) && e.text(t) == EncodeHeader(lib, t, enc)
  {
    Encoders(t => EncodeAddrHeader(lib, t, enc), t => EncodeHeader(lib, t, enc))
  }

  /** The value of an extra header: a text, or a list of addresses for Cc and Bcc. */
  datatype ExtraValue = Text(text: string) | Addrs(addrs: seq<string>)

  /** One `(name, value)` pair of `extrahdrs`. */
  datatype ExtraHeader = ExtraHeader(name: string, value: ExtraValue)

  /** `if value:`: an empty text or an empty list is skipped. */
  predicate IsGiven(v: ExtraValue)
  {
    match v
    case Text(t) => t != ""
    case Addrs(a) => a != []
  }

  /** `name.lower() in ['cc', 'bcc']`. */
  predicate IsAddressHeader(name: string)
  {
    Lower(name) == "cc" || Lower(name) == "bcc"
  }

  /** Other headers carry a text. */
  predicate WellTyped(h: ExtraHeader)
  {
    IsAddressHeader(h.name) || h.value.Text?
  }

  predicate AllWellTyped(hs: seq<ExtraHeader>)
  {
    forall j :: 0 <= j < |hs| ==> WellTyped(hs[j])
  }

  /** The items `for V in value` visits: the list, or the characters of a text. */
  function AddrItems(v: ExtraValue): seq<string>
  {
    match v
    case Addrs(a) => a
    case Text(t) => seq(|t|, i requires 0 <= i < |t| => [t[i]])
  }

  /** `[self.encodeAddrHeader(V, hdrenc) for V in value]`. */
  function EncodedValues(e: Encoders, v: ExtraValue): (r: seq<string>)
    ensures |r| == |AddrItems(v)|
    ensures forall i :: 0 <= i < |r| ==> r[i] == e.addr(AddrItems(v)[i])
  {
    var items := AddrItems(v);
    seq(|items|, i requires 0 <= i < |items| => e.addr(items[i]))
  }

  /** `x` is one of the encoded addresses of `h`, a given Cc or Bcc header. */
  predicate Contributes(e: Encoders, h: ExtraHeader, x: string)
  {
    IsAddressHeader(h.name) && IsGiven(h.value) && x in EncodedValues(e, h.value)
  }

  /** What one extra header adds: the header fields set, and the recipients. */
  function ExtraStep(e: Encoders, h: ExtraHeader): (seq<Field>, seq<string>)
    requires WellTyped(h)
  {
    if !IsGiven(h.value) then ([], [])
    else if !IsAddressHeader(h.name) then ([Field(h.name, e.text(h.value.text))], [])
    else
      var vs := EncodedValues(e, h.value);
      (if Lower(h.name) != "bcc" then [Field(h.name, Join(vs, ", "))] else [], vs)
  }

  /**
   * An empty value adds nothing; a given header other than Cc and Bcc adds
   * one field of its name holding its encoded text and no recipient; a
   * given Cc or Bcc adds its encoded addresses as recipients, and a field
   * only when it is Cc.
   */
  lemma ExtraStepRule(e: Encoders, h: ExtraHeader, x: string)
    requires WellTyped(h)
    ensures !IsGiven(h.value) ==> ExtraStep(e, h) == ([], [])
    ensures IsGiven(h.value) && !IsAddressHeader(h.name) ==>
      ExtraStep(e, h) == ([Field(h.name, e.text(h.value.text))], [])
    ensures x in ExtraStep(e, h).1 <==> Contributes(e, h, x)
    ensures forall f :: f in ExtraStep(e, h).0 ==> f.name == h.name && Lower(f.name) != "bcc"
    ensures IsGiven(h.value) && Lower(h.name) == "cc" ==> |ExtraStep(e, h).0| == 1
  {
  }

  /** The header fields the extra headers set, in order. */
  function ExtraFields(e: Encoders, hs: seq<ExtraHeader>): seq<Field>
    requires AllWellTyped(hs)
    decreases |hs|
  {
    if hs == [] then []
    else ExtraFields(e, hs[..|hs| - 1]) + ExtraStep(e, hs[|hs| - 1]).0
  }

  /** The recipients the extra headers add, in order. */
  function ExtraRecipients(e: Encoders, hs: seq<ExtraHeader>): seq<string>
    requires AllWellTyped(hs)
    decreases |hs|
  {
    if hs == [] then []
    else ExtraRecipients(e, hs[..|hs| - 1]) + ExtraStep(e, hs[|hs| - 1]).1
  }

  /** No extra header writes a Bcc field: blind copies go to the recipients only. */
  lemma {:induction false} NoBccField(e: Encoders, hs: seq<ExtraHeader>)
    requires AllWellTyped(hs)
    ensures forall f :: f in ExtraFields(e, hs) ==> Lower(f.name) != "bcc"
    decreases |hs|
  {
    if hs != [] {
      var init := hs[..|hs| - 1];
      NoBccField(e, init);
      var h := hs[|hs| - 1];
      ExtraStepRule(e, h, "");
    }
  }

  /**
   * A recipient comes from the extra headers exactly when it is the
   * encoding of an address listed under a given Cc or Bcc header.
   */
  lemma {:induction false} ExtraRecipientsFromAddressHeaders(e: Encoders, hs: seq<ExtraHeader>, x: string)
    requires AllWellTyped(hs)
    ensures x in ExtraRecipients(e, hs) <==> exists j :: 0 <= j < |hs| && Contributes(e, hs[j], x)
    decreases |hs|
  {
    if hs != [] {
      var init := hs[..|hs| - 1];
      var h := hs[|hs| - 1];
      assert x in ExtraRecipients(e, init) <==> exists j :: 0 <= j < |init| && Contributes(e, init[j], x) by {
        ExtraRecipientsFromAddressHeaders(e, init, x);
      }
      assert x in ExtraStep(e, h).1 <==> Contributes(e, h, x) by {
        ExtraStepRule(e, h, x);
      }
      assert ExtraRecipients(e, hs) == ExtraRecipients(e, init) + ExtraStep(e, h).1;
      if x in ExtraRecipients(e, hs) {
        if x in ExtraRecipients(e, init) {
          var j :| 0 <= j < |init| && Contributes(e, init[j], x);
          assert hs[j] == init[j];
        } else {
          assert Contributes(e, hs[|hs| - 1], x);
        }
      } else {
        forall j | 0 <= j < |hs|
          ensures !Contributes(e, hs[j], x)
        {
          if j < |init| {
            assert hs[j] == init[j];
          }
        }
      }
    }
  }

  /** A sequence of headers is well typed exactly when both halves are. */
  lemma WellTypedConcat(a: seq<ExtraHeader>, b: seq<ExtraHeader>)
    ensures AllWellTyped(a + b) <==> AllWellTyped(a) && AllWellTyped(b)
  {
    if AllWellTyped(a + b) {
      forall j | 0 <= j < |a|
        ensures WellTyped(a[j])
      {
        assert a[j] == (a + b)[j];
      }
      forall j | 0 <= j < |b|
        ensures WellTyped(b[j])
      {
        assert b[j] == (a + b)[|a| + j];
      }
    }
  }

  /** A prefix of well-typed headers is well typed. */
  lemma WellTypedPrefix(hs: seq<ExtraHeader>, n: nat)
    requires AllWellTyped(hs) && n <= |hs|
    ensures AllWellTyped(hs[..n])
  {
    assert hs == hs[..n] + hs[n..];
    WellTypedConcat(hs[..n], hs[n..]);
  }

  /** Going through the headers one more step adds that header's fields and recipients. */
  lemma ExtraPrefixStep(e: Encoders, hs: seq<ExtraHeader>, i: nat)
    requires AllWellTyped(hs) && i < |hs|
    ensures AllWellTyped(hs[..i]) && AllWellTyped(hs[..i + 1])
    ensures ExtraFields(e, hs[..i + 1]) == ExtraFields(e, hs[..i]) + ExtraStep(e, hs[i]).0
    ensures ExtraRecipients(e, hs[..i + 1]) == ExtraRecipients(e, hs[..i]) + ExtraStep(e, hs[i]).1
  {
    WellTypedPrefix(hs, i);
    WellTypedPrefix(hs, i + 1);
    assert hs[..i + 1][..i] == hs[..i];
  }

  /** Inserting a well-typed header into well-typed headers keeps them well typed. */
  lemma WellTypedInsert(a: seq<ExtraHeader>, h: ExtraHeader, b: seq<ExtraHeader>)
    requires AllWellTyped(a + b) && WellTyped(h)
    ensures AllWellTyped(a) && AllWellTyped(b) && AllWellTyped(a + [h] + b)
  {
    WellTypedConcat(a, b);
    WellTypedConcat(a, [h]);
    WellTypedConcat(a + [h], b);
  }

  /** A header with an empty value, wherever it sits, adds no field. */
  lemma {:induction false} EmptyValueAddsNoField(e: Encoders, a: seq<ExtraHeader>, h: ExtraHeader, b: seq<ExtraHeader>)
    requires AllWellTyped(a + b) && WellTyped(h) && !IsGiven(h.value)
    ensures AllWellTyped(a + [h] + b)
    ensures ExtraFields(e, a + [h] + b) == ExtraFields(e, a + b)
    decreases |b|
  {
    WellTypedInsert(a, h, b);
    var ahb, ab := a + [h] + b, a + b;
    if b == [] {
      assert ahb[..|ahb| - 1] == a && ahb[|ahb| - 1] == h;
      assert ab == a;
    } else {
      var b', last := b[..|b| - 1], b[|b| - 1];
      assert ab[..|ab| - 1] == a + b' && ab[|ab| - 1] == last;
      assert ahb[..|ahb| - 1] == a + [h] + b' && ahb[|ahb| - 1] == last;
      WellTypedPrefix(ab, |ab| - 1);
      EmptyValueAddsNoField(e, a, h, b');
    }
  }

  /** A header with an empty value, wherever it sits, adds no recipient. */
  lemma {:induction false} EmptyValueAddsNoRecipient(e: Encoders, a: seq<ExtraHeader>, h: ExtraHeader, b: seq<ExtraHeader>)
    requires AllWellTyped(a + b) && WellTyped(h) && !IsGiven(h.value)
    ensures AllWellTyped(a + [h] + b)
    ensures ExtraRecipients(e, a + [h] + b) == ExtraRecipients(e, a + b)
    decreases |b|
  {
    WellTypedInsert(a, h, b);
    var ahb, ab := a + [h] + b, a + b;
    if b == [] {
      assert ahb[..|ahb| - 1] == a && ahb[|ahb| - 1] == h;
      assert ab == a;
    } else {
      var b', last := b[..|b| - 1], b[|b| - 1];
      assert ab[..|ab| - 1] == a + b' && ab[|ab| - 1] == last;
      assert ahb[..|ahb| - 1] == a + [h] + b' && ahb[|ahb| - 1] == last;
      WellTypedPrefix(ab, |ab| - 1);
      EmptyValueAddsNoRecipient(e, a, h, b');
    }
  }

  /** The header fields set before the extra headers, with the subject under `subjectName`. */
  function BaseFields(from: string, tos: string, subjectName: string, subj: string, date: string): seq<Field>
  {
    [Field("From", from), Field("To", tos), Field(subjectName, subj), Field("Date", date)]
  }

  /** No field of `hs` has a name of the length of `name`, so `get_all(name)` finds none. */
  lemma {:induction false} GetAllNoneOfOtherLength(hs: seq<Field>, name: string)
    requires forall j :: 0 <= j < |hs| ==> |hs[j].name| != |name|
    ensures GetAll(hs, name) == []
    decreases |hs|
  {
    if hs != [] {
      assert |Lower(hs[0].name)| != |Lower(name)|;
      GetAllNoneOfOtherLength(hs[1..], name);
    }
  }

  /**
   * `msg['Subj'] = Subj`, as written: readers asking for the Subject
   * header find none, where the header named "Subject" gives the subject.
   */
  lemma SubjFieldHidesSubject(from: string, tos: string, subj: string, date: string)
    ensures GetAll(BaseFields(from, tos, "Subj", subj, date), "Subject") == []
    ensures GetAll(BaseFields(from, tos, "Subject", subj, date), "Subject") == [subj]
  {
    GetAllNoneOfOtherLength(BaseFields(from, tos, "Subj", subj, date), "Subject");
    var gs := BaseFields(from, tos, "Subject", subj, date);
    GetAllNoneOfOtherLength(gs[..2], "Subject");
    GetAllNoneOfOtherLength(gs[3..], "Subject");
    assert gs[..2][1..] == [gs[1]];
    assert GetAll(gs, "Subject") == GetAll(gs[1..], "Subject");
    assert GetAll(gs[1..], "Subject") == GetAll(gs[2..], "Subject");
    assert gs[2..][1..] == gs[3..];
  }

  /** Why sending stops. */
  datatype SendError =
    | NameError
    | TypeError
    | ValueError
    | SmtpFailure(reason: string)
    | SomeAddrsFailed(failed: seq<string>)

  /**
   * `server.sendmail(From, recip, fullText)` after connecting and logging
   * in: the refused recipients, or why the session failed.
   */
  type Smtp = (string, seq<string>, string) -> Result<seq<string>, string>

  /** `os.path.basename` under POSIX rules. */
  function Basename(path: string): (r: string)
    ensures '/' !in r
    ensures |r| <= |path| && r == path[|path| - |r|..]
    ensures |r| < |path| ==> path[|path| - |r| - 1] == '/'
  {
    TailAfterLast(path, {'/'})
  }

  /** `zip(attaches, encodings)`. */
  function Zip(a: seq<string>, b: seq<string>): (r: seq<(string, string)>)
    ensures |r| == (if |a| < |b| then |a| else |b|)
    ensures forall j :: 0 <= j < |r| ==> r[j] == (a[j], b[j])
  {
    var n := if |a| < |b| then |a| else |b|;
    seq(n, j requires 0 <= j < n => (a[j], b[j]))
  }

  /** `attachesEncoding or ['us-ascii'] * len(attaches)`. */
  function AttachEncodings(attaches: seq<string>, encodings: seq<string>): (r: seq<string>)
    ensures encodings != [] ==> r == encodings
    ensures encodings == [] ==> |r| == |attaches| && forall j :: 0 <= j < |r| ==> r[j] == "us-ascii"
  {
    if encodings != [] then encodings else seq(|attaches|, _ => "us-ascii")
  }

  /** The type given to a file whose type is unknown or that is compressed. */
  const OctetStream: string := "application/octet-stream"

  lemma OctetStreamIsBinary()
    ensures '/' in OctetStream && MainType(OctetStream) != "text"
  {
    assert OctetStream[11] == '/';
    assert OctetStream[0] == 'a';
  }

  /** The part built for a file of content type `ct`, or `ValueError` when the type has no '/'. */
  function TypedPart(lib: EmailLib, ct: string, data: Bytes, fileencode: string, base: string): (r: Result<OutPart, SendError>)
    ensures r.Err? <==> '/' !in ct
    ensures r.Ok? ==> r.value.contentType == ct && r.value.attachmentName == Some(base)
    ensures r.Ok? && MainType(ct) == "text" ==> r.value.payload == TextFilePayload(data, fileencode)
    ensures r.Ok? && MainType(ct) != "text" ==> r.value.payload == Base64Payload(Rewrapped(lib.encodeBase64(data)))
  {
    var main := MainType(ct);
    if |main| == |ct| then
      assert main == ct;
      Err(ValueError)
    else if main == "text" then Ok(OutPart(ct, TextFilePayload(data, fileencode), Some(base)))
    else Ok(OutPart(ct, Base64Payload(Rewrapped(lib.encodeBase64(data))), Some(base)))
  }

  /** The content type used for `filename`: the guess, or the generic binary type without one or for a compressed file. */
  function ContentTypeFor(lib: EmailLib, filename: string): (r: string)
    ensures lib.guessType(filename).0.None? || lib.guessType(filename).1.Some? ==> r == OctetStream
    ensures lib.guessType(filename).0.Some? && lib.guessType(filename).1.None? ==> r == lib.guessType(filename).0.value
  {
    var guess := lib.guessType(filename);
    if guess.0.None? || guess.1.Some? then OctetStream else guess.0.value
  }

  /**
   * One round of the `addAttachments` loop: nothing for a name that is not
   * a file; otherwise a part of the type chosen for it, named after the
   * file's base name.
   */
  function AttachmentPart(lib: EmailLib, files: map<string, Bytes>, filename: string, fileencode: string): (r: Result<Option<OutPart>, SendError>)
    ensures filename !in files ==> r == Ok(None)
    ensures filename in files ==> (r.Err? <==> '/' !in ContentTypeFor(lib, filename))
    ensures r.Ok? && r.value.Some? ==>
      r.value.value.attachmentName == Some(Basename(filename)) && r.value.value.contentType == ContentTypeFor(lib, filename)
  {
    if filename !in files then Ok(None)
    else
      var p := TypedPart(lib, ContentTypeFor(lib, filename), files[filename], fileencode, Basename(filename));
      if p.Err? then Err(p.error) else Ok(Some(p.value))
  }

  /** A file with no guessed type, or a compressed one, is attached as a Base64 part of the generic binary type. */
  lemma UnknownTypeAttachedAsBinary(lib: EmailLib, files: map<string, Bytes>, filename: string, fileencode: string)
    requires filename in files && (lib.guessType(filename).0.None? || lib.guessType(filename).1.Some?)
    ensures AttachmentPart(lib, files, filename, fileencode) ==
      Ok(Some(OutPart(OctetStream, Base64Payload(Rewrapped(lib.encodeBase64(files[filename]))), Some(Basename(filename)))))
  {
    OctetStreamIsBinary();
  }

  /**
   * The same round as written: no guess and no encoding reaches
   * `'Adding ' + None`, a `TypeError`; a file with no guess but an
   * encoding is generic binary; every non-text type names the undefined
   * `fix_encode_base64`, a `NameError`.
   */
  function AttachmentPartAsWritten(lib: EmailLib, files: map<string, Bytes>, filename: string, fileencode: string): Result<Option<OutPart>, SendError>
  {
    if filename !in files then Ok(None)
    else
      var guess := lib.guessType(filename);
      if guess.0.None? && guess.1.None? then Err(TypeError)
      else
        var ct := if guess.0.None? then OctetStream else guess.0.value;
        match TypedPart(lib, ct, files[filename], fileencode, Basename(filename))
        case Err(e) => Err(e)
        case Ok(p) => if MainType(ct) == "text" then Ok(Some(p)) else Err(NameError)
  }

  /**
   * As written, a file whose type cannot be guessed stops the message with
   * a `TypeError`, and one of a guessed non-text type with a `NameError`;
   * the corrected round attaches both.
   */
  lemma AttachmentAsWrittenFails(lib: EmailLib, files: map<string, Bytes>, filename: string, fileencode: string)
    requires filename in files
    ensures lib.guessType(filename) == (None, None) ==>
      AttachmentPartAsWritten(lib, files, filename, fileencode) == Err(TypeError) &&
      AttachmentPart(lib, files, filename, fileencode).Ok?
    ensures (lib.guessType(filename).0.Some? && '/' in lib.guessType(filename).0.value &&
             MainType(lib.guessType(filename).0.value) != "text") ==>
      AttachmentPartAsWritten(lib, files, filename, fileencode) == Err(NameError) &&
      AttachmentPart(lib, files, filename, fileencode).Ok?
  {
    OctetStreamIsBinary();
  }

  /** Adds the result of one round to the parts gathered so far; the first error stays. */
  function AddPart(acc: Result<seq<OutPart>, SendError>, part: Result<Option<OutPart>, SendError>): (r: Result<seq<OutPart>, SendError>)
    ensures acc.Err? ==> r == acc
    ensures acc.Ok? && part.Err? ==> r == Err(part.error)
    ensures acc.Ok? && part.Ok? ==> r.Ok? && r.value == acc.value + (if part.value.Some? then [part.value.value] else [])
  {
    match acc
    case Err(e) => Err(e)
    case Ok(ps) =>
      match part
      case Err(e) => Err(e)
      case Ok(None) => Ok(ps)
      case Ok(Some(p)) => Ok(ps + [p])
  }

  /** The attachment parts of `pairs`, in order, or the first error. */
  function AttachmentParts(lib: EmailLib, files: map<string, Bytes>, pairs: seq<(string, string)>): Result<seq<OutPart>, SendError>
    decreases |pairs|
  {
    if pairs == [] then Ok([])
    else AddPart(AttachmentParts(lib, files, pairs[..|pairs| - 1]),
                 AttachmentPart(lib, files, pairs[|pairs| - 1].0, pairs[|pairs| - 1].1))
  }

  lemma AttachmentPartsStep(lib: EmailLib, files: map<string, Bytes>, pairs: seq<(string, string)>, i: nat)
    requires i < |pairs|
    ensures AttachmentParts(lib, files, pairs[..i + 1]) ==
      AddPart(AttachmentParts(lib, files, pairs[..i]), AttachmentPart(lib, files, pairs[i].0, pairs[i].1))
  {
    assert pairs[..i + 1][..i] == pairs[..i];
  }

  /** The names of `pairs` that are files, in order. */
  function KeptFiles(files: map<string, Bytes>, pairs: seq<(string, string)>): (r: seq<string>)
    ensures forall x :: x in r ==> x in files
    decreases |pairs|
  {
    if pairs == [] then []
    else KeptFiles(files, pairs[..|pairs| - 1]) + (if pairs[|pairs| - 1].0 in files then [pairs[|pairs| - 1].0] else [])
  }

  /**
   * The attachment parts are one per file, in order, each named after the
   * base name of its file; names that are not files are skipped.
   */
  lemma {:induction false} AttachmentPartsFollowFiles(lib: EmailLib, files: map<string, Bytes>, pairs: seq<(string, string)>)
    ensures AttachmentParts(lib, files, pairs).Ok? ==>
      |AttachmentParts(lib, files, pairs).value| == |KeptFiles(files, pairs)| &&
      forall j :: 0 <= j < |KeptFiles(files, pairs)| ==>
        AttachmentParts(lib, files, pairs).value[j].attachmentName == Some(Basename(KeptFiles(files, pairs)[j]))
    decreases |pairs|
  {
    if pairs != [] {
      var init := pairs[..|pairs| - 1];
      AttachmentPartsFollowFiles(lib, files, init);
      if AttachmentParts(lib, files, pairs).Ok? {
        var ps, ks := AttachmentParts(lib, files, init).value, KeptFiles(files, init);
        var last := pairs[|pairs| - 1];
        var part := AttachmentPart(lib, files, last.0, last.1);
        assert part.Ok?;
        if last.0 in files {
          assert AttachmentParts(lib, files, pairs).value == ps + [part.value.value];
          assert KeptFiles(files, pairs) == ks + [last.0];
        } else {
          assert AttachmentParts(lib, files, pairs).value == ps + [];
          assert KeptFiles(files, pairs) == ks + [];
        }
      }
    }
  }

  /**
   * The parts of a message with attachments: the body as a text/plain
   * part, then the attachments of the files listed, each paired with its
   * encoding.
   */
  function MultipartParts(lib: EmailLib, files: map<string, Bytes>, bodytext: string, bodyEncoding: string,
                          attaches: seq<string>, encodings: seq<string>): Result<seq<OutPart>, SendError>
  {
    match AttachmentParts(lib, files, Zip(attaches, AttachEncodings(attaches, encodings)))
    case Err(e) => Err(e)
    case Ok(ps) => Ok([OutPart("text/plain", TextPayload(bodytext, bodyEncoding), None)] + ps)
  }

  /** Once a prefix of the pairs fails, so do all the pairs, with the same error. */
  lemma {:induction false} AttachmentErrorStops(lib: EmailLib, files: map<string, Bytes>, pairs: seq<(string, string)>, k: nat)
    requires k <= |pairs| && AttachmentParts(lib, files, pairs[..k]).Err?
    ensures AttachmentParts(lib, files, pairs) == AttachmentParts(lib, files, pairs[..k])
    decreases |pairs| - k
  {
    if k < |pairs| {
      AttachmentPartsStep(lib, files, pairs, k);
      AttachmentErrorStops(lib, files, pairs, k + 1);
    } else {
      assert pairs[..k] == pairs;
    }
  }

  /** The loop of `addAttachments` after `i` pairs: every part so far was built, and follows the body. */
  ghost predicate AttachedSoFar(lib: EmailLib, files: map<string, Bytes>, pairs: seq<(string, string)>, i: nat,
                                body: seq<OutPart>, parts: seq<OutPart>)
  {
    i <= |pairs| && AttachmentParts(lib, files, pairs[..i]).Ok? &&
    parts == body + AttachmentParts(lib, files, pairs[..i]).value
  }

  /** One more pair either fails all the pairs with its error or extends the parts by its own part. */
  lemma AttachedStep(lib: EmailLib, files: map<string, Bytes>, pairs: seq<(string, string)>, i: nat,
                     body: seq<OutPart>, parts: seq<OutPart>, part: Result<Option<OutPart>, SendError>)
    requires i < |pairs| && AttachedSoFar(lib, files, pairs, i, body, parts)
    requires part == AttachmentPart(lib, files, pairs[i].0, pairs[i].1)
    ensures part.Err? ==> AttachmentParts(lib, files, pairs) == Err(part.error)
    ensures part.Ok? ==>
      AttachedSoFar(lib, files, pairs, i + 1, body, parts + (if part.value.Some? then [part.value.value] else []))
  {
    AttachmentPartsStep(lib, files, pairs, i);
    if part.Err? {
      AttachmentErrorStops(lib, files, pairs, i + 1);
    }
  }

  /** After every pair, the parts are the body followed by all the attachment parts. */
  lemma AttachedDone(lib: EmailLib, files: map<string, Bytes>, pairs: seq<(string, string)>,
                     body: seq<OutPart>, parts: seq<OutPart>)
    requires AttachedSoFar(lib, files, pairs, |pairs|, body, parts)
    ensures AttachmentParts(lib, files, pairs) == Ok(parts[|body|..])
    ensures parts == body + parts[|body|..]
  {
    assert pairs[..|pairs|] == pairs;
  }

  /** `addAttachments`: the body part, then one part per file, attached in turn. */
  method AddAttachments(lib: EmailLib, files: map<string, Bytes>, bodytext: string, bodyEncoding: string,
                        attaches: seq<string>, encodings: seq<string>) returns (r: Result<seq<OutPart>, SendError>)
    ensures r == MultipartParts(lib, files, bodytext, bodyEncoding, attaches, encodings)
  {
    var pairs := Zip(attaches, AttachEncodings(attaches, encodings));
    ghost var body := [OutPart("text/plain", TextPayload(bodytext, bodyEncoding), None)];
    var parts := [OutPart("text/plain", TextPayload(bodytext, bodyEncoding), None)];
    assert AttachedSoFar(lib, files, pairs, 0, body, parts) by {
      assert pairs[..0] == [];
    }
    var i := 0;
    while i < |pairs|
      invariant AttachedSoFar(lib, files, pairs, i, body, parts)
    {
      var (filename, fileencode) := pairs[i];
      var part := AttachmentPart(lib, files, filename, fileencode);
      AttachedStep(lib, files, pairs, i, body, parts, part);
      if part.Err? {
        return Err(part.error);
      }
      if part.value.Some? {
        parts := parts + [part.value.value];
      }
      i := i + 1;
    }
    AttachedDone(lib, files, pairs, body, parts);
    r := Ok(parts);
  }

  /** What `saveSentMessage` appends: the separator, then the text ended by a newline. */
  function SavedRecord(fullText: string, sep: string): (r: Option<string>)
    ensures r.Some? <==> fullText != ""
    ensures r.Some? ==> |r.value| > |sep| && r.value[..|sep|] == sep && r.value[|r.value| - 1] == '\n'
    ensures r.Some? ==>
      (r.value[|sep|..] == fullText || (fullText[|fullText| - 1] != '\n' && r.value[|sep|..] == fullText + "\n"))
  {
    if fullText == "" then None
    else
      var text := if fullText[|fullText| - 1] != '\n' then fullText + "\n" else fullText;
      assert (sep + text)[|sep|..] == text;
      Some(sep + text)
  }

  /** The records appended to the log: none when the file cannot be written or the text is empty. */
  function Appended(fullText: string, sep: string, writable: bool): seq<string>
  {
    if writable && SavedRecord(fullText, sep).Some? then [SavedRecord(fullText, sep).value] else []
  }

  /** The default separator written before each saved message. */
  const DefaultSeparator: string := seq(80, _ => '=') + "PY\n"

  /**
   * What sending does to the log, and its outcome, once the message and
   * recipients are composed: a failed session logs nothing; otherwise the
   * text is logged first, then refused recipients are reported.
   */
  function Delivery(smtp: Smtp, from: string, recips: seq<string>, fullText: string, sep: string,
                    writable: bool, log: seq<string>): (r: (Outcome<SendError>, seq<string>))
    ensures |log| <= |r.1| && r.1[..|log|] == log
  {
    match smtp(from, recips, fullText)
    case Err(reason) => (Fail(SmtpFailure(reason)), log)
    case Ok(failed) =>
      var log' := log + Appended(fullText, sep, writable);
      assert log'[..|log|] == log;
      (if failed == [] then Pass else Fail(SomeAddrsFailed(failed)), log')
  }

  /**
   * A partial failure is still logged: when some recipients are refused
   * the text is saved before the refusal is reported, exactly as when all
   * are accepted.
   */
  lemma PartialFailureLogged(smtp: Smtp, from: string, recips: seq<string>, fullText: string, sep: string,
                             writable: bool, log: seq<string>)
    requires smtp(from, recips, fullText).Ok?
    ensures Delivery(smtp, from, recips, fullText, sep, writable, log).1 == log + Appended(fullText, sep, writable)
    ensures Delivery(smtp, from, recips, fullText, sep, writable, log).0.Pass? <==> smtp(from, recips, fullText).value == []
    ensures smtp(from, recips, fullText).value != [] ==>
      Delivery(smtp, from, recips, fullText, sep, writable, log).0 == Fail(SomeAddrsFailed(smtp(from, recips, fullText).value))
    ensures writable && fullText != "" ==> |Delivery(smtp, from, recips, fullText, sep, writable, log).1| == |log| + 1
  {
  }

  /** A session that fails logs nothing. */
  lemma FailedSessionNotLogged(smtp: Smtp, from: string, recips: seq<string>, fullText: string, sep: string,
                               writable: bool, log: seq<string>)
    requires smtp(from, recips, fullText).Err?
    ensures Delivery(smtp, from, recips, fullText, sep, writable, log) ==
      (Fail(SmtpFailure(smtp(from, recips, fullText).error)), log)
  {
  }

  /**
   * The sender with its configuration: the email package and the
   * encoding for non-ASCII headers (`mailconfig.headersEncodeTo`, "" for
   * none); `sentLog` is the file of sent mail, one record per message.
   */
  class MailSender {
    const lib: EmailLib
    const headersEncodeTo: string
    var sentLog: seq<string>

    constructor (lib: EmailLib, headersEncodeTo: string, sentLog: seq<string>)
      ensures this.lib == lib && this.headersEncodeTo == headersEncodeTo && this.sentLog == sentLog
    {
      this.lib := lib;
      this.headersEncodeTo := headersEncodeTo;
      this.sentLog := sentLog;
    }

    /** `mailconfig.headersEncodeTo or 'utf-8'`. */
    function HeaderEncoding(): (r: string)
      ensures headersEncodeTo != "" ==> r == headersEncodeTo
      ensures headersEncodeTo == "" ==> r == "utf-8"
    {
      if headersEncodeTo != "" then headersEncodeTo else "utf-8"
    }

    /** The To addresses, each encoded. */
    function EncodedTos(to: seq<string>): (r: seq<string>)
      ensures |r| == |to|
      ensures forall j :: 0 <= j < |to| ==> r[j] == EncodeAddrHeader(lib, to[j], HeaderEncoding())
    {
      seq(|to|, j requires 0 <= j < |to| => EncodeAddrHeader(lib, to[j], HeaderEncoding()))
    }

    /** The header fields of the message: From, To, Subject, Date, then the extra headers. */
    function MessageFields(from: string, to: seq<string>, subj: string, date: string, extras: seq<ExtraHeader>): seq<Field>
      requires AllWellTyped(extras)
    {
      var enc := HeaderEncoding();
      BaseFields(EncodeAddrHeader(lib, from, enc), Join(EncodedTos(to), ", "), "Subject",
                 EncodeHeader(lib, subj, enc), date) + ExtraFields(HeaderEncoders(lib, enc), extras)
    }

    /** The recipients: the To addresses, then those of Cc and Bcc, each once. */
    function Recipients(to: seq<string>, extras: seq<ExtraHeader>): seq<string>
      requires AllWellTyped(extras)
    {
      Dedup(EncodedTos(to) + ExtraRecipients(HeaderEncoders(lib, HeaderEncoding()), extras))
    }

    /**
     * The recipients are listed once each and are exactly the encoded To
     * addresses and the encoded addresses of the given Cc and Bcc headers;
     * the header fields never include Bcc.
     */
    lemma RecipientsExactly(to: seq<string>, extras: seq<ExtraHeader>, x: string)
      requires AllWellTyped(extras)
      ensures NoDuplicates(Recipients(to, extras))
      ensures x in Recipients(to, extras) <==>
        (exists j :: 0 <= j < |to| && x == EncodeAddrHeader(lib, to[j], HeaderEncoding())) ||
        (exists j :: 0 <= j < |extras| && Contributes(HeaderEncoders(lib, HeaderEncoding()), extras[j], x))
      ensures forall f :: f in MessageFields("", to, "", "", extras)[4..] ==> Lower(f.name) != "bcc"
    {
      var tos := EncodedTos(to);
      ExtraRecipientsFromAddressHeaders(HeaderEncoders(lib, HeaderEncoding()), extras, x);
      if x in tos {
        var j :| 0 <= j < |tos| && tos[j] == x;
      }
      NoBccField(HeaderEncoders(lib, HeaderEncoding()), extras);
      var fs := MessageFields("", to, "", "", extras);
      assert fs[4..] == ExtraFields(HeaderEncoders(lib, HeaderEncoding()), extras);
    }

    /**
     * The message as composed, or the error that stops it: a single body
     * without attachments, otherwise a multipart body.
     */
    function Composed(files: map<string, Bytes>, from: string, to: seq<string>, subj: string, date: string,
                      extras: seq<ExtraHeader>, bodytext: string, bodyEncoding: string,
                      attaches: seq<string>, encodings: seq<string>): Result<Outgoing, SendError>
      requires AllWellTyped(extras)
    {
      var fields := MessageFields(from, to, subj, date, extras);
      if attaches == [] then Ok(Outgoing(fields, SingleBody(bodytext, bodyEncoding)))
      else match MultipartParts(lib, files, bodytext, bodyEncoding, attaches, encodings)
        case Err(e) => Err(e)
        case Ok(ps) => Ok(Outgoing(fields, MultipartBody(ps)))
    }

    /** `saveSentMessage`: appends the record of the text, swallowing any failure. */
    method SaveSentMessage(fullText: string, sep: string, writable: bool)
      modifies this`sentLog
      ensures sentLog == old(sentLog) + Appended(fullText, sep, writable)
    {
      if !writable {
        return;
      }
      if fullText == "" {
        return;
      }
      var text := fullText;
      if text[|text| - 1] != '\n' {
        text := text + "\n";
      }
      sentLog := sentLog + [sep + text];
    }

    /**
     * One pass of the loop over `extrahdrs`: a given header adds its field
     * (none for Bcc) and, for Cc and Bcc, its encoded addresses.
     */
    method AddExtraHeader(enc: string, h: ExtraHeader) returns (fields: seq<Field>, recip: seq<string>)
      requires WellTyped(h)
      ensures (fields, recip) == ExtraStep(HeaderEncoders(lib, enc), h)
    {
      fields, recip := [], [];
      if IsGiven(h.value) {
        if !IsAddressHeader(h.name) {
          fields := [Field(h.name, EncodeHeader(lib, h.value.text, enc))];
        } else {
          recip := EncodedValues(HeaderEncoders(lib, enc), h.value);
          if Lower(h.name) != "bcc" {
            fields := [Field(h.name, Join(recip, ", "))];
          }
        }
      }
    }

    /**
     * The loop over `extrahdrs`: the fields and the recipients the extra
     * headers add, in order.
     */
    method AddExtraHeaders(enc: string, extras: seq<ExtraHeader>)
      returns (fields: seq<Field>, recip: seq<string>)
      requires AllWellTyped(extras)
      ensures fields == ExtraFields(HeaderEncoders(lib, enc), extras)
      ensures recip == ExtraRecipients(HeaderEncoders(lib, enc), extras)
    {
      ghost var e := HeaderEncoders(lib, enc);
      fields, recip := [], [];
      var i := 0;
      while i < |extras|
        invariant 0 <= i <= |extras|
        invariant AllWellTyped(extras[..i])
        invariant fields == ExtraFields(e, extras[..i])
        invariant recip == ExtraRecipients(e, extras[..i])
      {
        ExtraPrefixStep(e, extras, i);
        var fs, rs := AddExtraHeader(enc, extras[i]);
        fields, recip := fields + fs, recip + rs;
        i := i + 1;
      }
      assert extras[..i] == extras;
    }

    /**
     * `sendMessage`: composes the message, sends it, logs the text and
     * then reports refused recipients; `date` is `formatdate()`, `files`
     * the readable files, `writable` whether the log file can be written.
     */
    method SendMessage(smtp: Smtp, files: map<string, Bytes>, from: string, to: seq<string>, subj: string,
                       extras: seq<ExtraHeader>, bodytext: string, attaches: seq<string>, sep: string,
                       bodyEncoding: string, encodings: seq<string>, date: string, writable: bool)
      returns (r: Outcome<SendError>)
      requires AllWellTyped(extras)
      modifies this`sentLog
      ensures Composed(files, from, to, subj, date, extras, bodytext, bodyEncoding, attaches, encodings).Err? ==>
        r == Fail(Composed(files, from, to, subj, date, extras, bodytext, bodyEncoding, attaches, encodings).error) &&
        sentLog == old(sentLog)
      ensures Composed(files, from, to, subj, date, extras, bodytext, bodyEncoding, attaches, encodings).Ok? ==>
        (r, sentLog) == Delivery(smtp, EncodeAddrHeader(lib, from, HeaderEncoding()), Recipients(to, extras),
          lib.asString(Composed(files, from, to, subj, date, extras, bodytext, bodyEncoding, attaches, encodings).value),
          sep, writable, old(sentLog))
    {
      var body: OutBody;
      if attaches == [] {
        body := SingleBody(bodytext, bodyEncoding);
      } else {
        var parts := AddAttachments(lib, files, bodytext, bodyEncoding, attaches, encodings);
        if parts.Err? {
          return Fail(parts.error);
        }
        body := MultipartBody(parts.value);
      }
      var enc := HeaderEncoding();
      var subject := EncodeHeader(lib, subj, enc);
      var sender := EncodeAddrHeader(lib, from, enc);
      var tos := EncodedTos(to);
      var extraFields, extraRecip := AddExtraHeaders(enc, extras);
      var fields := BaseFields(sender, Join(tos, ", "), "Subject", subject, date) + extraFields;
      var recip := tos + extraRecip;
      assert fields == MessageFields(from, to, subj, date, extras);
      ghost var composed := Composed(files, from, to, subj, date, extras, bodytext, bodyEncoding, attaches, encodings);
      assert composed == Ok(Outgoing(fields, body));
      var fullText := lib.asString(Outgoing(fields, body));
      var sent := smtp(sender, Dedup(recip), fullText);
      if sent.Err? {
        return Fail(SmtpFailure(sent.error));
      }
      SaveSentMessage(fullText, sep, writable);
      if sent.value != [] {
        return Fail(SomeAddrsFailed(sent.value));
      }
      r := Pass;
    }
  }
}
