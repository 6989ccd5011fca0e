/**
 * The parts of Python's `email` package and `mimetypes` module that
 * mailtools calls.  Messages are values: a parsed message is a tree of
 * parts, an outgoing message is its headers plus a single or multipart
 * body.  The library's parsing, header codecs, address parsing, Base64
 * encoding and rendering are parameters bundled in `EmailLib`; the model
 * proves what mailtools does with their results.
 */
module EmailPackage {
  import opened Wrappers
  import opened Strings
  import opened Codec

  /** One header line: its name as written and its value. */
  datatype Field = Field(name: string, value: string)

  /**
   * An `email.message.Message` after parsing: its headers, what
   * `get_content_type()`, `get_filename()`, `get_param('name')` and
   * `get_content_charset()` report, and its body.
   */
  datatype Part = Part(
    headers: seq<Field>,
    contentType: string,
    filename: Option<string>,
    nameParam: Option<string>,
    charset: Option<string>,
    body: Body)

  /**
   * A multipart body holds the sub-parts; any other body holds the payload
   * as `get_payload(decode=1)` returns it (`None` when there is none).
   */
  datatype Body = Children(parts: seq<Part>) | Content(payload: Option<Bytes>)

  /** `get_content_maintype()`: the content type up to its first '/'. */
  function MainType(contentType: string): (r: string)
    ensures |r| <= |contentType| && r == contentType[..|r|]
    ensures '/' !in r
    ensures |r| < |contentType| ==> contentType[|r|] == '/'
    decreases |contentType|
  {
    if contentType == [] || contentType[0] == '/' then ""
    else [contentType[0]] + MainType(contentType[1..])
  }

  /** `msg.get_all(name)`: the values of every header so named, compared without case. */
  function GetAll(headers: seq<Field>, name: string): (r: seq<string>)
    ensures forall v :: v in r ==> exists f :: f in headers && Lower(f.name) == Lower(name) && f.value == v
    decreases |headers|
  {
    if headers == [] then []
    else (if Lower(headers[0].name) == Lower(name) then [headers[0].value] else []) + GetAll(headers[1..], name)
  }

  /** What `email.header.decode_header` returns for one encoded word or plain run. */
  datatype ChunkData = Str(s: string) | Raw(b: Bytes)

  datatype Chunk = Chunk(data: ChunkData, charset: Option<string>)

  /** The payload of a part built for sending. */
  datatype OutPayload =
    | TextPayload(text: string, charset: string)
    | TextFilePayload(data: Bytes, charset: string)
    | Base64Payload(encoded: string)

  /**
   * A part of a multipart message being sent; `attachmentName` is the
   * filename of its `Content-Disposition: attachment` header, if any.
   */
  datatype OutPart = OutPart(contentType: string, payload: OutPayload, attachmentName: Option<string>)

  datatype OutBody = SingleBody(text: string, charset: string) | MultipartBody(parts: seq<OutPart>)

  /** A message being sent: the headers mailtools sets, in order, and its body. */
  datatype Outgoing = Outgoing(headers: seq<Field>, body: OutBody)

  /**
   * The library functions mailtools calls, as total functions:
   * - `parse(text, headersonly)`: `Parser().parsestr`, `None` where it raises;
   * - `decodeHeader`: `email.header.decode_header`, `None` where it raises;
   * - `getAddresses(field)`: `email.utils.getaddresses([field])`;
   * - `formatNamed(name, addr)`: `email.utils.formataddr((name, addr))` for a non-empty name;
   * - `makeHeader(text, charset)`: `make_header([(text, charset)]).encode()`, `None` where it raises;
   * - `guessExtension(type)`: `mimetypes.guess_extension`;
   * - `guessType(filename)`: `mimetypes.guess_type`, the type and the encoding;
   * - `encodeBase64(data)`: the text `email.encoders.encode_base64` leaves in the payload;
   * - `asString(msg)`: `msg.as_string()`.
   */
  datatype EmailLib = EmailLib(
    parse: (string, bool) -> Option<Part>,
    decodeHeader: string -> Option<seq<Chunk>>,
    getAddresses: string -> seq<(string, string)>,
    formatNamed: (string, string) -> string,
    makeHeader: (string, string) -> Option<string>,
    guessExtension: string -> Option<string>,
    guessType: string -> (Option<string>, Option<string>),
    encodeBase64: Bytes -> string,
    asString: Outgoing -> string)

  /** `email.utils.formataddr((name, addr))`: a pair without a name is just the address. */
  function FormatAddr(lib: EmailLib, name: Option<string>, addr: string): (r: string)
    ensures name.None? || name == Some("") ==> r == addr
  {
    if name.None? || name.value == "" then addr else lib.formatNamed(name.value, addr)
  }
}
