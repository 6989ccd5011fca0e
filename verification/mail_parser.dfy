/**
 * `MailParser` (mailParser.py): walking a parsed message's parts, naming
 * them, finding one by name, choosing the main text, decoding payloads and
 * headers, and parsing with a fallback message instead of an exception.
 */
module Parser {
  import opened Wrappers
  import opened Strings
  import opened Codec
  import opened EmailPackage

  /** `msg.walk()`: the part itself, then the walk of each sub-part in order. */
  function Walk(p: Part): (ws: seq<Part>)
    ensures |ws| >= 1 && ws[0] == p
    decreases p, 1
  {
    [p] + (if p.body.Children? then WalkAll(p.body.parts) else [])
  }

  function WalkAll(ps: seq<Part>): seq<Part>
    decreases ps, 0
  {
    if ps == [] then [] else Walk(ps[0]) + WalkAll(ps[1..])
  }

  /** The parts `walkNamedParts` skips: multipart containers and attached messages. */
  predicate IsContainerType(contentType: string)
  {
    MainType(contentType) == "multipart" || contentType == "message/rfc822"
  }

  /** Python truth of an optional string: present and not empty. */
  predicate Declared(v: Option<string>)
  {
    v.Some? && v.value != ""
  }

  /** The extension of a synthesized part name: `.txt`, the guessed one, or `.bin`. */
  function Extension(lib: EmailLib, contentType: string): string
  {
    if contentType == "text/plain" then ".txt"
    else match lib.guessExtension(contentType)
      case Some(e) => if e == "" then ".bin" else e
      case None => ".bin"
  }

  /** `'part-%03d%s' % (ix, ext)`. */
  function SynthesizedName(lib: EmailLib, contentType: string, ix: nat): string
  {
    "part-" + ZeroPad3(ix) + Extension(lib, contentType)
  }

  /**
   * `partName`: the declared filename, else the `name` parameter, else a
   * name made from the walk position; paired with the content type.
   */
  function PartName(lib: EmailLib, part: Part, ix: nat): (string, string)
  {
    var filename :=
      if Declared(part.filename) then part.filename.value
      else if Declared(part.nameParam) then part.nameParam.value
      else SynthesizedName(lib, part.contentType, ix);
    (filename, part.contentType)
  }

  /**
   * A declared filename wins, then the `name` parameter; otherwise the name
   * is "part-", the walk position in at least three digits, and an
   * extension that is never empty: `.txt` for plain text, the guessed one,
   * or `.bin` when there is no guess.
   */
  lemma PartNameRule(lib: EmailLib, part: Part, ix: nat)
    ensures PartName(lib, part, ix).1 == part.contentType
    ensures Declared(part.filename) ==> PartName(lib, part, ix).0 == part.filename.value
    ensures !Declared(part.filename) && Declared(part.nameParam) ==> PartName(lib, part, ix).0 == part.nameParam.value
    ensures !Declared(part.filename) && !Declared(part.nameParam) ==>
      var z := ZeroPad3(ix);
      PartName(lib, part, ix).0 == "part-" + z + Extension(lib, part.contentType) && DigitsValue(z) == ix
    ensures Extension(lib, part.contentType) != []
    ensures part.contentType == "text/plain" ==> Extension(lib, part.contentType) == ".txt"
    ensures var g := lib.guessExtension(part.contentType);
      part.contentType != "text/plain" && g.Some? && g.value != "" ==> Extension(lib, part.contentType) == g.value
    ensures var g := lib.guessExtension(part.contentType);
      part.contentType != "text/plain" && (g.None? || g.value == "") ==> Extension(lib, part.contentType) == ".bin"
  {
    ZeroPad3Value(ix);
  }

  /** One entry of `walkNamedParts`: the name, the content type and the part itself. */
  datatype NamedPart = NamedPart(filename: string, contentType: string, part: Part)

  function Named(lib: EmailLib, p: Part, ix: nat): NamedPart
  {
    var (filename, contype) := PartName(lib, p, ix);
    NamedPart(filename, contype, p)
  }

  /** A way of naming the part found at a walk position. */
  type Namer = (Part, nat) -> NamedPart

  /** The naming `walkNamedParts` uses: `partName` of the part and its position. */
  function PartNamer(lib: EmailLib): Namer
  {
    (p: Part, ix: nat) => Named(lib, p, ix)
  }

  /**
   * The non-container parts of `ws`, named by `name`, when the first
   * element of `ws` sits at walk position `ix`.
   */
  function NamedFrom(name: Namer, ws: seq<Part>, ix: nat): seq<NamedPart>
    decreases |ws|
  {
    if ws == [] then []
    else (if IsContainerType(ws[0].contentType) then [] else [name(ws[0], ix)]) + NamedFrom(name, ws[1..], ix + 1)
  }

  /** `walkNamedParts(message)`. */
  function WalkNamedParts(lib: EmailLib, m: Part): seq<NamedPart>
  {
    NamedFrom(PartNamer(lib), Walk(m), 0)
  }

  /** The walk positions of the parts `NamedFrom` keeps. */
  ghost function KeptFrom(ws: seq<Part>, ix: nat): seq<nat>
    decreases |ws|
  {
    if ws == [] then []
    else (if IsContainerType(ws[0].contentType) then [] else [ix]) + KeptFrom(ws[1..], ix + 1)
  }

  lemma {:induction false} KeptFromBounds(ws: seq<Part>, ix: nat)
    ensures forall j :: 0 <= j < |KeptFrom(ws, ix)| ==> ix <= KeptFrom(ws, ix)[j] < ix + |ws|
    ensures forall j, l :: 0 <= j < l < |KeptFrom(ws, ix)| ==> KeptFrom(ws, ix)[j] < KeptFrom(ws, ix)[l]
    decreases |ws|
  {
    if ws != [] {
      KeptFromBounds(ws[1..], ix + 1);
      var ks, ks1 := KeptFrom(ws, ix), KeptFrom(ws[1..], ix + 1);
      if !IsContainerType(ws[0].contentType) {
        assert ks == [ix] + ks1;
        forall j | 0 <= j < |ks|
          ensures ix <= ks[j] < ix + |ws|
        {
          if j > 0 {
            assert ks[j] == ks1[j - 1];
          }
        }
        forall j, l | 0 <= j < l < |ks|
          ensures ks[j] < ks[l]
        {
          assert ks[l] == ks1[l - 1];
          if j > 0 { assert ks[j] == ks1[j - 1]; }
        }
      }
    }
  }

  lemma {:induction false} KeptFromCovers(ws: seq<Part>, ix: nat)
    ensures forall i :: 0 <= i < |ws| && !IsContainerType(ws[i].contentType) ==> ix + i in KeptFrom(ws, ix)
    decreases |ws|
  {
    if ws != [] {
      KeptFromCovers(ws[1..], ix + 1);
      assert forall i :: 1 <= i < |ws| ==> ws[i] == ws[1..][i - 1];
    }
  }

  /** `ns[j]` is the named part at walk position `ks[j]`, for `ws` starting at position `ix`. */
  ghost predicate NamedAt(name: Namer, ws: seq<Part>, ix: nat, ns: seq<NamedPart>, ks: seq<nat>)
  {
    |ns| == |ks| &&
    forall j :: 0 <= j < |ks| ==> (ix <= ks[j] < ix + |ws| &&
      !IsContainerType(ws[ks[j] - ix].contentType) && ns[j] == name(ws[ks[j] - ix], ks[j]))
  }

  /** Positions found in the tail of a walk still hold in the whole walk. */
  lemma NamedAtTail(name: Namer, ws: seq<Part>, ix: nat, ns: seq<NamedPart>, ks: seq<nat>)
    requires ws != [] && NamedAt(name, ws[1..], ix + 1, ns, ks)
    ensures NamedAt(name, ws, ix, ns, ks)
  {
    forall j | 0 <= j < |ks|
      ensures ix <= ks[j] < ix + |ws| && !IsContainerType(ws[ks[j] - ix].contentType) &&
        ns[j] == name(ws[ks[j] - ix], ks[j])
    {
      var a := ks[j] - (ix + 1);
      assert ws[1..][a] == ws[a + 1];
    }
  }

  /** A kept first part joins the front of the positions of the tail. */
  lemma NamedAtCons(name: Namer, ws: seq<Part>, ix: nat, ns: seq<NamedPart>, ks: seq<nat>)
    requires ws != [] && !IsContainerType(ws[0].contentType)
    requires NamedAt(name, ws, ix, ns, ks)
    ensures NamedAt(name, ws, ix, [name(ws[0], ix)] + ns, [ix] + ks)
  {
    var ns', ks' := [name(ws[0], ix)] + ns, [ix] + ks;
    forall j | 0 <= j < |ks'|
      ensures ix <= ks'[j] < ix + |ws| && !IsContainerType(ws[ks'[j] - ix].contentType) &&
        ns'[j] == name(ws[ks'[j] - ix], ks'[j])
    {
      if j > 0 {
        assert ks'[j] == ks[j - 1] && ns'[j] == ns[j - 1];
      }
    }
  }

  lemma {:induction false} NamedFromAtKept(name: Namer, ws: seq<Part>, ix: nat)
    ensures NamedAt(name, ws, ix, NamedFrom(name, ws, ix), KeptFrom(ws, ix))
    decreases |ws|
  {
    if ws != [] {
      NamedFromAtKept(name, ws[1..], ix + 1);
      var ns1 := NamedFrom(name, ws[1..], ix + 1);
      var ks1 := KeptFrom(ws[1..], ix + 1);
      NamedAtTail(name, ws, ix, ns1, ks1);
      if !IsContainerType(ws[0].contentType) {
        NamedAtCons(name, ws, ix, ns1, ks1);
        assert NamedFrom(name, ws, ix) == [name(ws[0], ix)] + ns1;
        assert KeptFrom(ws, ix) == [ix] + ks1;
      } else {
        assert NamedFrom(name, ws, ix) == [] + ns1 == ns1;
        assert KeptFrom(ws, ix) == [] + ks1 == ks1;
      }
    }
  }

  /**
   * `walkNamedParts` keeps the non-container parts in walk order and names
   * each after its position in the full walk, containers included.
   */
  lemma NamedPartsFollowWalk(lib: EmailLib, m: Part)
    ensures var ws := Walk(m); var ns := WalkNamedParts(lib, m); var ks := KeptFrom(ws, 0);
      |ns| == |ks| &&
      (forall j :: 0 <= j < |ks| ==>
        ks[j] < |ws| && !IsContainerType(ws[ks[j]].contentType) && ns[j] == Named(lib, ws[ks[j]], ks[j])) &&
      (forall j, l :: 0 <= j < l < |ks| ==> ks[j] < ks[l]) &&
      (forall i :: 0 <= i < |ws| && !IsContainerType(ws[i].contentType) ==> i in ks)
  {
    NamedFromAtKept(PartNamer(lib), Walk(m), 0);
    assert NamedAt(PartNamer(lib), Walk(m), 0, WalkNamedParts(lib, m), KeptFrom(Walk(m), 0));
    KeptFromBounds(Walk(m), 0);
    KeptFromCovers(Walk(m), 0);
  }

  /** Every extension `mimetypes` guesses starts with a dot. */
  ghost predicate DottedGuesses(lib: EmailLib)
  {
    forall ct :: lib.guessExtension(ct).Some? && lib.guessExtension(ct).value != "" ==>
      lib.guessExtension(ct).value[0] == '.'
  }

  /** Position of the first '.' in `s`, or `|s|`. */
  function FirstDot(s: string): (i: nat)
    ensures i <= |s|
    ensures forall k :: 0 <= k < i ==> s[k] != '.'
    ensures i < |s| ==> s[i] == '.'
    decreases |s|
  {
    if s == [] then 0
    else if s[0] == '.' then 0
    else 1 + FirstDot(s[1..])
  }

  /** With dotted guesses, every extension starts with a dot. */
  lemma ExtensionDotted(lib: EmailLib, ct: string)
    requires DottedGuesses(lib)
    ensures Extension(lib, ct) != [] && Extension(lib, ct)[0] == '.'
  {
  }

  /** Digits followed by a dotted extension: the first dot ends the digits. */
  lemma FirstDotAfterDigits(z: string, ext: string)
    requires forall k :: 0 <= k < |z| ==> IsDigit(z[k])
    requires ext != [] && ext[0] == '.'
    ensures FirstDot(z + ext) == |z|
  {
    var s := z + ext;
    assert forall k :: 0 <= k < |z| ==> s[k] == z[k];
    assert s[|z|] == '.';
    assert forall k :: 0 <= k < |z| ==> s[k] != '.' by {
      forall k | 0 <= k < |z| ensures s[k] != '.' {
        assert IsDigit(z[k]);
      }
    }
    FirstDotIsFirst(s, |z|);
  }

  /** A position with a dot and no dot before it is the first dot. */
  lemma FirstDotIsFirst(s: string, i: nat)
    requires i < |s| && s[i] == '.'
    requires forall k :: 0 <= k < i ==> s[k] != '.'
    ensures FirstDot(s) == i
  {
  }

  /**
   * The walk position can be read back from a synthesized name, so two
   * parts at different positions never get the same synthesized name.
   */
  lemma SynthesizedNameInjective(lib: EmailLib, ct1: string, ix1: nat, ct2: string, ix2: nat)
    requires DottedGuesses(lib)
    requires SynthesizedName(lib, ct1, ix1) == SynthesizedName(lib, ct2, ix2)
    ensures ix1 == ix2
  {
    var z1, z2 := ZeroPad3(ix1), ZeroPad3(ix2);
    var e1, e2 := Extension(lib, ct1), Extension(lib, ct2);
    assert z1 + e1 == z2 + e2 by {
      var n1, n2 := SynthesizedName(lib, ct1, ix1), SynthesizedName(lib, ct2, ix2);
      assert n1[5..] == z1 + e1;
      assert n2[5..] == z2 + e2;
    }
    assert |z1| == |z2| by {
      ExtensionDotted(lib, ct1);
      ExtensionDotted(lib, ct2);
      FirstDotAfterDigits(z1, e1);
      FirstDotAfterDigits(z2, e2);
    }
    assert z1 == z2 by {
      assert z1 == (z1 + e1)[..|z1|];
      assert z2 == (z2 + e2)[..|z2|];
    }
    ZeroPad3Value(ix1);
    ZeroPad3Value(ix2);
  }

  /**
   * Parts that declare no filename get names that differ from one another,
   * because each name carries its part's walk position.
   */
  lemma SynthesizedNamesDistinct(lib: EmailLib, m: Part)
    requires DottedGuesses(lib)
    requires forall p :: p in Walk(m) ==> !Declared(p.filename) && !Declared(p.nameParam)
    ensures forall i, j :: 0 <= i < j < |WalkNamedParts(lib, m)| ==>
      WalkNamedParts(lib, m)[i].filename != WalkNamedParts(lib, m)[j].filename
  {
    var ws := Walk(m);
    var ns := WalkNamedParts(lib, m);
    var ks := KeptFrom(ws, 0);
    NamedPartsFollowWalk(lib, m);
    forall i, j | 0 <= i < j < |ns|
      ensures ns[i].filename != ns[j].filename
    {
      assert ws[ks[i]] in ws && ws[ks[j]] in ws;
      if ns[i].filename == ns[j].filename {
        SynthesizedNameInjective(lib, ws[ks[i]].contentType, ks[i], ws[ks[j]].contentType, ks[j]);
      }
    }
  }

  /** The number of parts `NamedFrom` keeps. */
  ghost function CountKept(ws: seq<Part>): nat
    decreases |ws|
  {
    if ws == [] then 0
    else (if IsContainerType(ws[0].contentType) then 0 else 1) + CountKept(ws[1..])
  }

  lemma {:induction false} CountKeptAppend(a: seq<Part>, b: seq<Part>)
    ensures CountKept(a + b) == CountKept(a) + CountKept(b)
    decreases |a|
  {
    if a == [] {
      assert a + b == b;
    } else {
      assert (a + b)[0] == a[0];
      assert (a + b)[1..] == a[1..] + b;
      CountKeptAppend(a[1..], b);
    }
  }

  lemma {:induction false} NamedFromCount(name: Namer, ws: seq<Part>, ix: nat)
    ensures |NamedFrom(name, ws, ix)| == CountKept(ws)
    decreases |ws|
  {
    if ws != [] {
      NamedFromCount(name, ws[1..], ix + 1);
    }
  }

  /** The leaves of a message tree: its parts without sub-parts. */
  function LeafCount(p: Part): nat
    decreases p, 1
  {
    if p.body.Children? then LeafCountAll(p.body.parts) else 1
  }

  function LeafCountAll(ps: seq<Part>): nat
    decreases ps, 0
  {
    if ps == [] then 0 else LeafCount(ps[0]) + LeafCountAll(ps[1..])
  }

  /** Exactly the parts with sub-parts carry a container content type. */
  predicate WellFormed(p: Part)
    decreases p, 1
  {
    (p.body.Children? <==> IsContainerType(p.contentType)) &&
    (p.body.Children? ==> WellFormedAll(p.body.parts))
  }

  predicate WellFormedAll(ps: seq<Part>)
    decreases ps, 0
  {
    ps == [] || (WellFormed(ps[0]) && WellFormedAll(ps[1..]))
  }

  lemma {:induction false} CountKeptWalk(p: Part)
    requires WellFormed(p)
    ensures CountKept(Walk(p)) == LeafCount(p)
    decreases p, 1
  {
    var inner := if p.body.Children? then WalkAll(p.body.parts) else [];
    assert Walk(p) == [p] + inner;
    assert ([p] + inner)[1..] == inner;
    if p.body.Children? {
      CountKeptWalkAll(p.body.parts);
    }
  }

  lemma {:induction false} CountKeptWalkAll(ps: seq<Part>)
    requires WellFormedAll(ps)
    ensures CountKept(WalkAll(ps)) == LeafCountAll(ps)
    decreases ps, 0
  {
    if ps != [] {
      CountKeptWalk(ps[0]);
      CountKeptWalkAll(ps[1..]);
      CountKeptAppend(Walk(ps[0]), WalkAll(ps[1..]));
    }
  }

  /**
   * A well-formed message with N leaf parts yields exactly N named parts,
   * however many containers hold them.
   */
  lemma NamedPartsCountLeaves(lib: EmailLib, m: Part)
    requires WellFormed(m)
    ensures |WalkNamedParts(lib, m)| == LeafCount(m)
  {
    NamedFromCount(PartNamer(lib), Walk(m), 0);
    CountKeptWalk(m);
  }

  function Filenames(ns: seq<NamedPart>): (names: seq<string>)
    ensures |names| == |ns|
    ensures forall i :: 0 <= i < |ns| ==> names[i] == ns[i].filename
    decreases |ns|
  {
    if ns == [] then [] else [ns[0].filename] + Filenames(ns[1..])
  }

  /** `partsList`: the names `walkNamedParts` gives, in the same order. */
  function PartsList(lib: EmailLib, m: Part): (names: seq<string>)
    ensures |names| == |WalkNamedParts(lib, m)|
    ensures forall i :: 0 <= i < |names| ==> names[i] == WalkNamedParts(lib, m)[i].filename
  {
    Filenames(WalkNamedParts(lib, m))
  }

  /** Position of the first entry named `name`, or `|ns|`. */
  function FirstNamed(ns: seq<NamedPart>, name: string): (j: nat)
    ensures j <= |ns|
    ensures forall i :: 0 <= i < j ==> ns[i].filename != name
    ensures j < |ns| ==> ns[j].filename == name
    decreases |ns|
  {
    if ns == [] then 0
    else if ns[0].filename == name then 0
    else 1 + FirstNamed(ns[1..], name)
  }

  /** `part.get_payload(decode=1)`: `None` for a multipart part. */
  function PayloadOf(p: Part): Option<Bytes>
  {
    if p.body.Content? then p.body.payload else None
  }

  /**
   * `findOnePart(partname, message)`: the content type and payload of the
   * first part of that name, or `None` when `partsList` does not hold it.
   */
  function FindOnePart(lib: EmailLib, partname: string, m: Part): (r: Option<(string, Option<Bytes>)>)
    ensures r.None? <==> partname !in PartsList(lib, m)
    ensures r.Some? ==> exists j :: (0 <= j < |WalkNamedParts(lib, m)| &&
      WalkNamedParts(lib, m)[j].filename == partname &&
      (forall i :: 0 <= i < j ==> WalkNamedParts(lib, m)[i].filename != partname) &&
      r.value == (WalkNamedParts(lib, m)[j].contentType, PayloadOf(WalkNamedParts(lib, m)[j].part)))
  {
    var ns := WalkNamedParts(lib, m);
    var j := FirstNamed(ns, partname);
    var names := PartsList(lib, m);
    if j < |ns| then
      assert names[j] == partname;
      Some((ns[j].contentType, PayloadOf(ns[j].part)))
    else
      assert forall i :: 0 <= i < |names| ==> names[i] != partname;
      None
  }

  /** What `decodedPayload` returns: decoded text, the raw bytes, or no payload. */
  datatype PayloadValue = Text(text: string) | Binary(data: Bytes) | NoPayload

  /** The text returned for a payload that no encoding decodes. */
  const UndecodableText: string := "--Sorry: cannot decode Unicode text--"

  /** The encodings `decodedPayload` tries: the declared charset (if any) first. */
  function PayloadEncodings(charset: Option<string>, defaultEncoding: string): seq<string>
  {
    (if Declared(charset) then [charset.value] else []) + [defaultEncoding, "latin1", "utf8"]
  }

  /** The value `decodedPayload(part, asStr)` returns. */
  function DecodedPayloadOf(codec: Codec, defaultEncoding: string, part: Part, asStr: bool): PayloadValue
  {
    match PayloadOf(part)
    case None => NoPayload
    case Some(b) =>
      if !asStr then Binary(b)
      else
        var encs := PayloadEncodings(part.charset, defaultEncoding);
        var k := FirstDecodable(codec, encs, [b]);
        if k < |encs| then Text(codec(b, encs[k]).value) else Text(UndecodableText)
  }

  /** `decodedPayload`: try each encoding on the payload until one works. */
  method DecodedPayload(codec: Codec, defaultEncoding: string, part: Part, asStr: bool) returns (r: PayloadValue)
    ensures r == DecodedPayloadOf(codec, defaultEncoding, part, asStr)
  {
    var payload := PayloadOf(part);
    if payload.None? {
      return NoPayload;
    }
    if !asStr {
      return Binary(payload.value);
    }
    var encs := PayloadEncodings(part.charset, defaultEncoding);
    ghost var k := FirstDecodable(codec, encs, [payload.value]);
    var i := 0;
    while i < |encs|
      invariant 0 <= i <= |encs|
      invariant i <= k
      invariant forall j :: 0 <= j < i ==> codec(payload.value, encs[j]).None?
    {
      var t := codec(payload.value, encs[i]);
      if t.Some? {
        assert DecodeAll(codec, [payload.value], encs[i]).Some?;
        return Text(t.value);
      }
      assert DecodeAll(codec, [payload.value], encs[i]).None?;
      i := i + 1;
    }
    return Text(UndecodableText);
  }

  /**
   * With bytes to decode, `decodedPayload` gives the payload decoded under
   * the first encoding that works (the declared charset first), and the
   * apology text only when none does.
   */
  lemma DecodedPayloadFirstWorkingEncoding(codec: Codec, defaultEncoding: string, part: Part, b: Bytes)
    requires PayloadOf(part) == Some(b)
    ensures var r := DecodedPayloadOf(codec, defaultEncoding, part, true);
      var encs := PayloadEncodings(part.charset, defaultEncoding);
      (Declared(part.charset) ==> encs[0] == part.charset.value) &&
      ((exists k :: 0 <= k < |encs| && codec(b, encs[k]).Some? &&
          (forall j :: 0 <= j < k ==> codec(b, encs[j]).None?) && r == Text(codec(b, encs[k]).value)) ||
       ((forall j :: 0 <= j < |encs| ==> codec(b, encs[j]).None?) && r == Text(UndecodableText)))
  {
    var encs := PayloadEncodings(part.charset, defaultEncoding);
    var k := FirstDecodable(codec, encs, [b]);
    assert forall j :: 0 <= j < |encs| ==> (DecodeAll(codec, [b], encs[j]).Some? <==> codec(b, encs[j]).Some?);
  }

  /** Without `asStr`, or without a payload, `decodedPayload` hands the payload back unchanged. */
  lemma DecodedPayloadUnchanged(codec: Codec, defaultEncoding: string, part: Part, asStr: bool)
    requires !asStr || PayloadOf(part).None?
    ensures DecodedPayloadOf(codec, defaultEncoding, part, asStr) ==
      (if PayloadOf(part).Some? then Binary(PayloadOf(part).value) else NoPayload)
  {
  }

  /** The text `findMainText` falls back to when the message has no text part. */
  const NoTextPlaceholder: string := "[No text to display]"

  datatype TextKind = Plain | Html | AnyText

  predicate OfKind(p: Part, kind: TextKind)
  {
    match kind
    case Plain => p.contentType == "text/plain"
    case Html => p.contentType == "text/html"
    case AnyText => MainType(p.contentType) == "text"
  }

  /** Position of the first part of the kind, or `|ws|`. */
  function FirstOfKind(ws: seq<Part>, kind: TextKind): (i: nat)
    ensures i <= |ws|
    ensures forall j :: 0 <= j < i ==> !OfKind(ws[j], kind)
    ensures i < |ws| ==> OfKind(ws[i], kind)
    decreases |ws|
  {
    if ws == [] then 0
    else if OfKind(ws[0], kind) then 0
    else 1 + FirstOfKind(ws[1..], kind)
  }

  /** The content type and text `findMainText` returns. */
  datatype MainText = MainText(contentType: string, text: PayloadValue)

  function Placeholder(asStr: bool): PayloadValue
  {
    assert IsAscii(NoTextPlaceholder);
    if asStr then Text(NoTextPlaceholder) else Binary(AsciiBytes(NoTextPlaceholder))
  }

  /** `i` is the position of the first part of the kind in `ws`. */
  predicate IsFirstOfKind(ws: seq<Part>, i: int, kind: TextKind)
  {
    0 <= i < |ws| && OfKind(ws[i], kind) && forall j :: 0 <= j < i ==> !OfKind(ws[j], kind)
  }

  predicate NoneOfKind(ws: seq<Part>, kind: TextKind)
  {
    forall i :: 0 <= i < |ws| ==> !OfKind(ws[i], kind)
  }

  /** `findMainText`, with the content type of the third search returned as a string. */
  function FindMainText(codec: Codec, defaultEncoding: string, m: Part, asStr: bool): MainText
  {
    var ws := Walk(m);
    var p := FirstOfKind(ws, Plain);
    if p < |ws| then MainText("text/plain", DecodedPayloadOf(codec, defaultEncoding, ws[p], asStr))
    else
      var h := FirstOfKind(ws, Html);
      if h < |ws| then MainText("text/html", DecodedPayloadOf(codec, defaultEncoding, ws[h], asStr))
      else
        var t := FirstOfKind(ws, AnyText);
        if t < |ws| then MainText(ws[t].contentType, DecodedPayloadOf(codec, defaultEncoding, ws[t], asStr))
        else MainText("text/plain", Placeholder(asStr))
  }

  /** The first `text/plain` part in walk order wins. */
  lemma MainTextPrefersPlain(codec: Codec, defaultEncoding: string, m: Part, asStr: bool, i: int)
    requires IsFirstOfKind(Walk(m), i, Plain)
    ensures FindMainText(codec, defaultEncoding, m, asStr) ==
      MainText("text/plain", DecodedPayloadOf(codec, defaultEncoding, Walk(m)[i], asStr))
  {
    assert FirstOfKind(Walk(m), Plain) == i;
  }

  /** Without a `text/plain` part, the first `text/html` part wins. */
  lemma MainTextThenHtml(codec: Codec, defaultEncoding: string, m: Part, asStr: bool, i: int)
    requires NoneOfKind(Walk(m), Plain) && IsFirstOfKind(Walk(m), i, Html)
    ensures FindMainText(codec, defaultEncoding, m, asStr) ==
      MainText("text/html", DecodedPayloadOf(codec, defaultEncoding, Walk(m)[i], asStr))
  {
    assert FirstOfKind(Walk(m), Plain) == |Walk(m)|;
    assert FirstOfKind(Walk(m), Html) == i;
  }

  /** Without plain or HTML text, the first other part of main type `text` wins, with its own type. */
  lemma MainTextThenAnyText(codec: Codec, defaultEncoding: string, m: Part, asStr: bool, i: int)
    requires NoneOfKind(Walk(m), Plain) && NoneOfKind(Walk(m), Html) && IsFirstOfKind(Walk(m), i, AnyText)
    ensures FindMainText(codec, defaultEncoding, m, asStr) ==
      MainText(Walk(m)[i].contentType, DecodedPayloadOf(codec, defaultEncoding, Walk(m)[i], asStr))
    ensures MainType(FindMainText(codec, defaultEncoding, m, asStr).contentType) == "text"
  {
    assert FirstOfKind(Walk(m), Plain) == |Walk(m)|;
    assert FirstOfKind(Walk(m), Html) == |Walk(m)|;
    assert FirstOfKind(Walk(m), AnyText) == i;
  }

  /** `get_content_maintype()` of a type whose first '/' is at `k`. */
  lemma MainTypeAt(ct: string, k: nat)
    requires k < |ct| && ct[k] == '/'
    requires forall i :: 0 <= i < k ==> ct[i] != '/'
    ensures MainType(ct) == ct[..k]
  {
  }

  lemma TextTypesAreText()
    ensures MainType("text/plain") == "text" && MainType("text/html") == "text"
  {
    MainTypeAt("text/plain", 4);
    MainTypeAt("text/html", 4);
  }

  /** A message without any text part shows the placeholder as plain text. */
  lemma MainTextPlaceholder(codec: Codec, defaultEncoding: string, m: Part, asStr: bool)
    requires NoneOfKind(Walk(m), AnyText)
    ensures FindMainText(codec, defaultEncoding, m, asStr) == MainText("text/plain", Placeholder(asStr))
  {
    var ws := Walk(m);
    TextTypesAreText();
    forall i | 0 <= i < |ws|
      ensures !OfKind(ws[i], Plain) && !OfKind(ws[i], Html)
    {
      assert !OfKind(ws[i], AnyText);
    }
    assert FirstOfKind(ws, Plain) == |ws|;
    assert FirstOfKind(ws, Html) == |ws|;
    assert FirstOfKind(ws, AnyText) == |ws|;
  }

  /** The first element of what `findMainText` returns as written: a type name or a bound method. */
  datatype TypeResult = TypeName(name: string) | BoundContentTypeMethod

  /** `findMainText` as written: the third search returns `part.get_content_type` uncalled. */
  function FindMainTextAsWritten(codec: Codec, defaultEncoding: string, m: Part, asStr: bool): (TypeResult, PayloadValue)
  {
    var ws := Walk(m);
    var p := FirstOfKind(ws, Plain);
    if p < |ws| then (TypeName("text/plain"), DecodedPayloadOf(codec, defaultEncoding, ws[p], asStr))
    else
      var h := FirstOfKind(ws, Html);
      if h < |ws| then (TypeName("text/html"), DecodedPayloadOf(codec, defaultEncoding, ws[h], asStr))
      else
        var t := FirstOfKind(ws, AnyText);
        if t < |ws| then (BoundContentTypeMethod, DecodedPayloadOf(codec, defaultEncoding, ws[t], asStr))
        else (TypeName("text/plain"), Placeholder(asStr))
  }

  /**
   * A message whose only text part is, say, `text/xml` gets a method object
   * instead of its content type from the code as written, while the text
   * itself is the same.
   */
  lemma MainTextAsWrittenReturnsMethod(codec: Codec, defaultEncoding: string, m: Part, asStr: bool)
    requires NoneOfKind(Walk(m), Plain) && NoneOfKind(Walk(m), Html)
    requires exists i :: 0 <= i < |Walk(m)| && OfKind(Walk(m)[i], AnyText)
    ensures FindMainTextAsWritten(codec, defaultEncoding, m, asStr).0 == BoundContentTypeMethod
    ensures FindMainTextAsWritten(codec, defaultEncoding, m, asStr).1 == FindMainText(codec, defaultEncoding, m, asStr).text
    ensures MainType(FindMainText(codec, defaultEncoding, m, asStr).contentType) == "text"
  {
    var ws := Walk(m);
    assert FirstOfKind(ws, Plain) == |ws|;
    assert FirstOfKind(ws, Html) == |ws|;
    assert FirstOfKind(ws, AnyText) < |ws|;
  }

  /** One `(part, enc)` pair of `decode_header`, decoded as `decodeHeader` does. */
  function DecodeChunk(codec: Codec, c: Chunk): Option<string>
  {
    match c.charset
    case None =>
      (match c.data
       case Str(s) => Some(s)
       case Raw(b) => codec(b, "raw-unicode-escape"))
    case Some(enc) =>
      (match c.data
       case Raw(b) => codec(b, enc)
       case Str(_) => None)
  }

  function DecodeChunks(codec: Codec, cs: seq<Chunk>): (r: Option<seq<string>>)
    ensures r.Some? <==> forall i :: 0 <= i < |cs| ==> DecodeChunk(codec, cs[i]).Some?
    ensures r.Some? ==> |r.value| == |cs|
    ensures r.Some? ==> forall i :: 0 <= i < |cs| ==> r.value[i] == DecodeChunk(codec, cs[i]).value
    decreases |cs|
  {
    if cs == [] then Some([])
    else
      var head := DecodeChunk(codec, cs[0]);
      var tail := DecodeChunks(codec, cs[1..]);
      if head.Some? && tail.Some? then Some([head.value] + tail.value) else None
  }

  /** The value `decodeHeader(rawheader)` returns. */
  function DecodedHeader(lib: EmailLib, codec: Codec, raw: string): string
  {
    match lib.decodeHeader(raw)
    case None => raw
    case Some(chunks) =>
      match DecodeChunks(codec, chunks)
      case None => raw
      case Some(ds) => Join(ds, " ")
  }

  /** `decodeHeader`: decode every chunk, join them with spaces; any failure gives the raw header. */
  method DecodeHeader(lib: EmailLib, codec: Codec, raw: string) returns (r: string)
    ensures r == DecodedHeader(lib, codec, raw)
  {
    var parts := lib.decodeHeader(raw);
    if parts.None? {
      return raw;
    }
    var chunks := parts.value;
    var decoded: seq<string> := [];
    var i := 0;
    while i < |chunks|
      invariant 0 <= i <= |chunks|
      invariant |decoded| == i
      invariant forall j :: 0 <= j < i ==> DecodeChunk(codec, chunks[j]).Some? && decoded[j] == DecodeChunk(codec, chunks[j]).value
    {
      var d := DecodeChunk(codec, chunks[i]);
      if d.None? {
        assert DecodeChunks(codec, chunks).None?;
        return raw;
      }
      decoded := decoded + [d.value];
      i := i + 1;
    }
    assert DecodeChunks(codec, chunks).value == decoded;
    r := Join(decoded, " ");
  }

  /** A header without encoded words comes back unchanged. */
  lemma PlainHeaderUnchanged(lib: EmailLib, codec: Codec, raw: string)
    requires lib.decodeHeader(raw) == Some([Chunk(Str(raw), None)])
    ensures DecodedHeader(lib, codec, raw) == raw
  {
  }

  /** A header some chunk of which cannot be decoded comes back unchanged. */
  lemma UndecodableHeaderUnchanged(lib: EmailLib, codec: Codec, raw: string, i: nat)
    requires lib.decodeHeader(raw).Some? && i < |lib.decodeHeader(raw).value|
    requires DecodeChunk(codec, lib.decodeHeader(raw).value[i]).None?
    ensures DecodedHeader(lib, codec, raw) == raw
  {
  }

  /**
   * `decodeAddrHeader` as written: `formataddr(name, addr)` passes two
   * arguments where the function takes one pair, so the first address
   * raises `TypeError` and the whole header is decoded instead; an empty
   * address list gives the empty string.
   */
  method DecodeAddrHeaderAsWritten(lib: EmailLib, codec: Codec, raw: string) returns (r: string)
    ensures lib.getAddresses(raw) == [] ==> r == ""
    ensures lib.getAddresses(raw) != [] ==> r == DecodedHeader(lib, codec, raw)
  {
    var pairs := lib.getAddresses(raw);
    if pairs == [] {
      return "";
    }
    var name := DecodeHeader(lib, codec, pairs[0].0);
    r := DecodeHeader(lib, codec, raw);
  }

  /** The value intended for `decodeAddrHeader`: each address with its name decoded, joined by spaces. */
  function DecodedAddresses(lib: EmailLib, codec: Codec, pairs: seq<(string, string)>): (r: seq<string>)
    ensures |r| == |pairs|
    ensures forall i :: 0 <= i < |pairs| ==> r[i] == FormatAddr(lib, Some(DecodedHeader(lib, codec, pairs[i].0)), pairs[i].1)
    decreases |pairs|
  {
    if pairs == [] then []
    else [FormatAddr(lib, Some(DecodedHeader(lib, codec, pairs[0].0)), pairs[0].1)] + DecodedAddresses(lib, codec, pairs[1..])
  }

  /** `decodeAddrHeader` with `formataddr((name, addr))`: one decoded entry per address. */
  method DecodeAddrHeader(lib: EmailLib, codec: Codec, raw: string) returns (r: string)
    ensures r == Join(DecodedAddresses(lib, codec, lib.getAddresses(raw)), " ")
  {
    var pairs := lib.getAddresses(raw);
    var decoded: seq<string> := [];
    var i := 0;
    while i < |pairs|
      invariant 0 <= i <= |pairs|
      invariant decoded == DecodedAddresses(lib, codec, pairs[..i])
    {
      var name := DecodeHeader(lib, codec, pairs[i].0);
      DecodedAddressesAppend(lib, codec, pairs[..i], pairs[i]);
      assert pairs[..i + 1] == pairs[..i] + [pairs[i]];
      decoded := decoded + [FormatAddr(lib, Some(name), pairs[i].1)];
      i := i + 1;
    }
    assert pairs[..i] == pairs;
    r := Join(decoded, " ");
  }

  lemma {:induction false} DecodedAddressesAppend(lib: EmailLib, codec: Codec, pairs: seq<(string, string)>, p: (string, string))
    ensures DecodedAddresses(lib, codec, pairs + [p]) ==
      DecodedAddresses(lib, codec, pairs) + [FormatAddr(lib, Some(DecodedHeader(lib, codec, p.0)), p.1)]
    decreases |pairs|
  {
    if pairs == [] {
      assert pairs + [p] == [p];
    } else {
      assert (pairs + [p])[1..] == pairs[1..] + [p];
      DecodedAddressesAppend(lib, codec, pairs[1..], p);
    }
  }

  /**
   * An address whose display name has no encoded words keeps that name:
   * `decode_header` gives the name back as one undecoded piece.
   */
  lemma DecodedAddressPlainName(lib: EmailLib, codec: Codec, pairs: seq<(string, string)>, i: nat)
    requires i < |pairs| && lib.decodeHeader(pairs[i].0) == Some([Chunk(Str(pairs[i].0), None)])
    ensures DecodedAddresses(lib, codec, pairs)[i] == FormatAddr(lib, Some(pairs[i].0), pairs[i].1)
  {
    assert DecodedHeader(lib, codec, pairs[i].0) == pairs[i].0 by {
      PlainHeaderUnchanged(lib, codec, pairs[i].0);
    }
  }

  /** An address without a display name is kept as the bare address (`decode_header('')` is `[('', None)]`). */
  lemma DecodedAddressUnnamed(lib: EmailLib, codec: Codec, pairs: seq<(string, string)>, i: nat)
    requires i < |pairs| && pairs[i].0 == ""
    requires lib.decodeHeader("") == Some([Chunk(Str(""), None)])
    ensures DecodedAddresses(lib, codec, pairs)[i] == pairs[i].1
  {
    DecodedAddressPlainName(lib, codec, pairs, i);
  }

  /** `splitAddresses(field)`: each address of the field, formatted on its own. */
  function SplitAddresses(lib: EmailLib, field: string): (r: seq<string>)
    ensures |r| == |lib.getAddresses(field)|
    ensures forall i :: 0 <= i < |r| ==>
      r[i] == FormatAddr(lib, Some(lib.getAddresses(field)[i].0), lib.getAddresses(field)[i].1)
    ensures forall i :: 0 <= i < |r| && lib.getAddresses(field)[i].0 == "" ==> r[i] == lib.getAddresses(field)[i].1
  {
    var pairs := lib.getAddresses(field);
    seq(|pairs|, i requires 0 <= i < |pairs| => FormatAddr(lib, Some(pairs[i].0), pairs[i].1))
  }

  /** The payload of the message returned when parsing fails. */
  const ParseErrorText: string := "[Unable to parse message - format error]"

  lemma ParseErrorTextIsAscii()
    ensures IsAscii(ParseErrorText)
  {
  }

  /** `MailParser.errorMessage`: an otherwise empty message holding the error text. */
  function ErrorMessage(): Part
  {
    ParseErrorTextIsAscii();
    Part([], "text/plain", None, None, None, Content(Some(AsciiBytes(ParseErrorText))))
  }

  /** `parseHeaders`: the parsed headers, or the error message instead of an exception. */
  function ParseHeaders(lib: EmailLib, mailtext: string): (m: Part)
    ensures lib.parse(mailtext, true).Some? ==> m == lib.parse(mailtext, true).value
    ensures lib.parse(mailtext, true).None? ==> m == ErrorMessage()
  {
    match lib.parse(mailtext, true)
    case Some(msg) => msg
    case None => ErrorMessage()
  }

  /** `parseMessage`: the fully parsed message, or the error message. */
  function ParseMessage(lib: EmailLib, fullText: string): (m: Part)
    ensures lib.parse(fullText, false).Some? ==> m == lib.parse(fullText, false).value
    ensures lib.parse(fullText, false).None? ==> m == ErrorMessage()
  {
    match lib.parse(fullText, false)
    case Some(msg) => msg
    case None => ErrorMessage()
  }

  /** `parseMessageRaw`: `HeaderParser` parses the headers only, as `parseHeaders` does. */
  function ParseMessageRaw(lib: EmailLib, fulltext: string): (m: Part)
    ensures m == ParseHeaders(lib, fulltext)
  {
    match lib.parse(fulltext, true)
    case Some(msg) => msg
    case None => ErrorMessage()
  }

  /** When parsing fails, the main text shown is the parse-error text. */
  lemma ParseFailureShowsErrorText(lib: EmailLib, codec: Codec, defaultEncoding: string, fullText: string)
    requires lib.parse(fullText, false).None?
    requires codec(AsciiBytes(ParseErrorText), defaultEncoding) == Some(ParseErrorText)
    ensures FindMainText(codec, defaultEncoding, ParseMessage(lib, fullText), true) ==
      MainText("text/plain", Text(ParseErrorText))
  {
    var m := ErrorMessage();
    var b := AsciiBytes(ParseErrorText);
    assert Walk(m) == [m];
    MainTextPrefersPlain(codec, defaultEncoding, m, true, 0);
    var encs := PayloadEncodings(None, defaultEncoding);
    assert DecodeAll(codec, [b], encs[0]).Some?;
    assert FirstDecodable(codec, encs, [b]) == 0;
  }
}
