/**
 * `mailtools.mailFetcher`: downloading, deleting and checking mail on a
 * POP server (mailFetcher.py).
 *
 * The server is a `Mailbox`: the messages of the maildrop, and the
 * numbers marked for deletion in the current session.  `connect` opens a
 * fresh session, so every operation starts with nothing marked; `quit`
 * removes the marked messages (the UPDATE state of RFC 1939, section 6).
 * Each `MailFetcher` operation takes the box of the session it opens.
 */
module Fetcher {
  import opened Wrappers
  import opened Strings
  import opened Codec
  import opened EmailPackage
  import opened Parser

  /** The exceptions the fetch operations end with. */
  datatype FetchError =
    | TopNotSupported              // mailtools.TopNotSupported
    | DeleteSynchError(msgnum: int) // mailtools.DeleteSynchError, for that message number
    | MessageSynchError            // mailtools.MessageSynchError
    | PopError                     // poplib.error_proto: the server answered -ERR
    | ValueError                   // decodeFullText found no blank line
    | IndexError
    | TypeError
    | AttributeError
    | AssertionError

  /**
   * A message on the server: the lines `TOP n 0` sends (the header lines
   * and the blank line after them), the lines `RETR n` sends, and its size
   * in octets as `LIST` and `RETR` report it.
   */
  datatype ServerMessage = ServerMessage(header: seq<Bytes>, lines: seq<Bytes>, octets: nat)

  /** The text stored in place of a header the fetch limit skips. */
  const SkippedHeader: string := "Subject: --mail skipped--\n\n"

  /** The text stored in place of a message the fetch limit skips. */
  const SkippedMail: string := "Subject: --mail skipped--\n\nMail skipped.\n"

  /** A message number the server accepts: in range and not marked for deletion. */
  predicate IsLive(msgs: seq<ServerMessage>, marked: set<int>, n: int)
  {
    1 <= n <= |msgs| && n !in marked
  }

  function TopOf(msgs: seq<ServerMessage>, marked: set<int>, n: int): Result<seq<Bytes>, FetchError>
  {
    if IsLive(msgs, marked, n) then Ok(msgs[n - 1].header) else Err(PopError)
  }

  function RetrOf(msgs: seq<ServerMessage>, marked: set<int>, n: int): Result<ServerMessage, FetchError>
  {
    if IsLive(msgs, marked, n) then Ok(msgs[n - 1]) else Err(PopError)
  }

  /** The sizes `LIST` reports, in message order. */
  function Sizes(msgs: seq<ServerMessage>): (r: seq<nat>)
    ensures |r| == |msgs|
    ensures forall i :: 0 <= i < |msgs| ==> r[i] == msgs[i].octets
  {
    seq(|msgs|, i requires 0 <= i < |msgs| => msgs[i].octets)
  }

  /** The maildrop after `QUIT`: the messages whose numbers are not in `marked`. */
  function Expunged(msgs: seq<ServerMessage>, marked: set<int>): seq<ServerMessage>
    decreases |msgs|
  {
    if msgs == [] then []
    else Expunged(msgs[..|msgs| - 1], marked) + (if |msgs| in marked then [] else [msgs[|msgs| - 1]])
  }

  /** A session that marks nothing in range leaves the maildrop as it was. */
  lemma {:induction false} ExpungedNothing(msgs: seq<ServerMessage>, marked: set<int>)
    requires forall n :: n in marked ==> n < 1 || n > |msgs|
    ensures Expunged(msgs, marked) == msgs
    decreases |msgs|
  {
    if msgs != [] {
      ExpungedNothing(msgs[..|msgs| - 1], marked);
    }
  }

  /** Deleting message `k` removes exactly the `k`-th message. */
  lemma {:induction false} ExpungedOne(msgs: seq<ServerMessage>, k: int)
    requires 1 <= k <= |msgs|
    ensures Expunged(msgs, {k}) == msgs[..k - 1] + msgs[k..]
    decreases |msgs|
  {
    var init := msgs[..|msgs| - 1];
    if k == |msgs| {
      ExpungedNothing(init, {k});
      assert msgs[..k - 1] == init;
    } else {
      ExpungedOne(init, k);
      assert init[..k - 1] == msgs[..k - 1];
      assert init[k..] + [msgs[|msgs| - 1]] == msgs[k..];
    }
  }

  /** A POP session on one maildrop. */
  class Mailbox {
    var messages: seq<ServerMessage>
    var marked: set<int>

    constructor (messages: seq<ServerMessage>)
      ensures this.messages == messages && marked == {}
    {
      this.messages := messages;
      marked := {};
    }

    /** `STAT`: the number of messages. */
    method Stat() returns (count: nat)
      ensures count == |messages|
    {
      count := |messages|;
    }

    /** `LIST`: each message's size. */
    method List() returns (sizes: seq<nat>)
      ensures sizes == Sizes(messages)
    {
      sizes := Sizes(messages);
    }

    /** `TOP n 0`: the header lines of message `n`. */
    method Top(n: int) returns (r: Result<seq<Bytes>, FetchError>)
      ensures r == TopOf(messages, marked, n)
    {
      r := TopOf(messages, marked, n);
    }

    /** `RETR n`: the whole of message `n`. */
    method Retr(n: int) returns (r: Result<ServerMessage, FetchError>)
      ensures r == RetrOf(messages, marked, n)
    {
      r := RetrOf(messages, marked, n);
    }

    /** `DELE n`: marks message `n` for deletion. */
    method Dele(n: int) returns (r: Outcome<FetchError>)
      modifies this`marked
      ensures r == (if IsLive(messages, old(marked), n) then Pass else Fail(PopError))
      ensures marked == if r.Pass? then old(marked) + {n} else old(marked)
    {
      if IsLive(messages, marked, n) {
        marked := marked + {n};
        r := Pass;
      } else {
        r := Fail(PopError);
      }
    }

    /** `QUIT`: the marked messages are removed and the session ends. */
    method Quit()
      modifies this
      ensures messages == Expunged(old(messages), old(marked))
      ensures marked == {}
    {
      messages := Expunged(messages, marked);
      marked := {};
    }
  }

  /** What `downloadAllHeaders` and `downloadAllMessages` return. */
  datatype MailIndex = MailIndex(texts: seq<string>, sizes: seq<nat>, loadedFull: bool)

  /** The number of messages from `loadfrom` to `count`: `range(loadfrom, count + 1)`. */
  function Span(loadfrom: int, count: nat): nat
  {
    if loadfrom <= count then count - loadfrom + 1 else 0
  }

  /** The progress callback was called with `(loadfrom + j, count)` for each message tried. */
  predicate ProgressFrom(progress: seq<(int, int)>, loadfrom: int, count: int)
  {
    forall j :: 0 <= j < |progress| ==> progress[j] == (loadfrom + j, count)
  }

  /** A line `headersMatch` sets aside: one starting with "Status:". */
  predicate IsStatusLine(line: string)
  {
    StartsWith(line, "Status:")
  }

  /** A line whose first eleven characters are "message-id:" in any case. */
  predicate IsMessageIdLine(line: string)
  {
    Lower(Prefix(line, 11)) == "message-id:"
  }

  function NonStatus(lines: seq<string>): (r: seq<string>)
    ensures forall x :: x in r <==> x in lines && !IsStatusLine(x)
    decreases |lines|
  {
    if lines == [] then []
    else (if IsStatusLine(lines[0]) then [] else [lines[0]]) + NonStatus(lines[1..])
  }

  function MessageIds(lines: seq<string>): (r: seq<string>)
    ensures forall x :: x in r <==> x in lines && IsMessageIdLine(x)
    decreases |lines|
  {
    if lines == [] then []
    else (if IsMessageIdLine(lines[0]) then [lines[0]] else []) + MessageIds(lines[1..])
  }

  /** The headers `headersMatch` compares after parsing. */
  const CommonHeaders: seq<string> := ["From", "To", "Subject", "Date", "Cc", "Return-Path", "Received"]

  predicate CommonHeadersAgree(lib: EmailLib, text1: string, text2: string)
  {
    forall h :: h in CommonHeaders ==>
      GetAll(ParseHeaders(lib, text1).headers, h) == GetAll(ParseHeaders(lib, text2).headers, h)
  }

  /**
   * `headersMatch`: equal texts match; texts equal once "Status:" lines are
   * dropped match; different Message-Id lines (when either has one) do not;
   * otherwise the common headers of the parsed texts decide.
   */
  predicate HeadersMatch(lib: EmailLib, text1: string, text2: string)
  {
    if text1 == text2 then true
    else
      var split1 := SplitLines(text1);
      var split2 := SplitLines(text2);
      if NonStatus(split1) == NonStatus(split2) then true
      else
        var ids1 := MessageIds(split1);
        var ids2 := MessageIds(split2);
        if (ids1 != [] || ids2 != []) && ids1 != ids2 then false
        else CommonHeadersAgree(lib, text1, text2)
  }

  lemma HeadersMatchReflexive(lib: EmailLib, text: string)
    ensures HeadersMatch(lib, text, text)
  {
  }

  lemma {:induction false} MessageIdsAppend(a: seq<string>, b: seq<string>)
    ensures MessageIds(a + b) == MessageIds(a) + MessageIds(b)
    decreases |a|
  {
    if a == [] {
      assert a + b == b;
    } else {
      assert (a + b)[0] == a[0];
      assert (a + b)[1..] == a[1..] + b;
      MessageIdsAppend(a[1..], b);
    }
  }

  /** A "Status:" line is never a Message-Id line. */
  lemma StatusLineIsNoMessageId(line: string)
    requires IsStatusLine(line)
    ensures !IsMessageIdLine(line)
  {
    assert line[..7] == "Status:";
    assert line[0] == 'S';
    var p := Prefix(line, 11);
    assert p[0] == 'S';
    assert Lower(p)[0] == 's';
  }

  /** Dropping "Status:" lines leaves the Message-Id lines as they were. */
  lemma {:induction false} MessageIdsIgnoreStatus(lines: seq<string>)
    ensures MessageIds(NonStatus(lines)) == MessageIds(lines)
    decreases |lines|
  {
    if lines != [] {
      var head := if IsStatusLine(lines[0]) then [] else [lines[0]];
      MessageIdsIgnoreStatus(lines[1..]);
      MessageIdsAppend(head, NonStatus(lines[1..]));
      if IsStatusLine(lines[0]) {
        StatusLineIsNoMessageId(lines[0]);
      }
      assert MessageIds(head) == (if IsMessageIdLine(lines[0]) then [lines[0]] else []);
    }
  }

  /** Header texts with different Message-Id lines never match. */
  lemma DifferentMessageIdsNeverMatch(lib: EmailLib, text1: string, text2: string)
    requires MessageIds(SplitLines(text1)) != MessageIds(SplitLines(text2))
    ensures !HeadersMatch(lib, text1, text2)
  {
    MessageIdsIgnoreStatus(SplitLines(text1));
    MessageIdsIgnoreStatus(SplitLines(text2));
  }

  /**
   * Past the first two steps and with the same Message-Id lines (or none),
   * the texts match exactly when From, To, Subject, Date, Cc, Return-Path
   * and Received have the same values in both parsed headers.
   */
  lemma CommonHeadersDecide(lib: EmailLib, text1: string, text2: string)
    requires NonStatus(SplitLines(text1)) != NonStatus(SplitLines(text2))
    requires MessageIds(SplitLines(text1)) == MessageIds(SplitLines(text2))
    ensures HeadersMatch(lib, text1, text2) <==>
      forall h :: h in CommonHeaders ==>
        GetAll(ParseHeaders(lib, text1).headers, h) == GetAll(ParseHeaders(lib, text2).headers, h)
  {
  }

  /** Whether two header texts match does not depend on their order. */
  lemma HeadersMatchSymmetric(lib: EmailLib, text1: string, text2: string)
    ensures HeadersMatch(lib, text1, text2) <==> HeadersMatch(lib, text2, text1)
  {
  }

  /**
   * Header texts as the fetcher builds them from `TOP` (the header lines,
   * then the blank line, joined by "\n") match when they differ only in
   * their "Status:" lines.
   */
  lemma StatusLinesIgnored(lib: EmailLib, lines1: seq<string>, lines2: seq<string>)
    requires forall j :: 0 <= j < |lines1| ==> NoBreaks(lines1[j])
    requires forall j :: 0 <= j < |lines2| ==> NoBreaks(lines2[j])
    requires NonStatus(lines1) == NonStatus(lines2)
    ensures HeadersMatch(lib, Join(lines1 + [""], "\n"), Join(lines2 + [""], "\n"))
  {
    SplitLinesOfTerminated(lines1);
    SplitLinesOfTerminated(lines2);
  }

  /** The check a deletion loop makes on a number, given the numbers marked so far. */
  type Check = (set<int>, int) -> Outcome<FetchError>

  /**
   * A deletion loop: each number in turn is checked under the numbers
   * marked so far and then marked, until a check fails; the outcome and
   * the numbers marked.
   */
  function DeletionRun(check: Check, marked: set<int>, todo: seq<int>): (Outcome<FetchError>, seq<int>)
    decreases |todo|
  {
    if todo == [] then (Pass, [])
    else if check(marked, todo[0]).Fail? then (check(marked, todo[0]), [])
    else
      var rest := DeletionRun(check, marked + {todo[0]}, todo[1..]);
      (rest.0, [todo[0]] + rest.1)
  }

  /** The numbers listed in `s`, as a set. */
  function Members(s: seq<int>): (r: set<int>)
    ensures forall x :: x in r <==> x in s
    decreases |s|
  {
    if s == [] then {} else Members(s[..|s| - 1]) + {s[|s| - 1]}
  }

  lemma SetOfAppend(s: seq<int>, x: int)
    ensures Members(s + [x]) == Members(s) + {x}
  {
  }

  /**
   * A deletion loop marks a prefix of the numbers; it passes exactly when
   * it marked them all, and otherwise ends with the failed check of the
   * first number it did not mark.
   */
  lemma {:induction false} DeletionRunPrefix(check: Check, marked: set<int>, todo: seq<int>)
    ensures |DeletionRun(check, marked, todo).1| <= |todo|
    ensures DeletionRun(check, marked, todo).1 == todo[..|DeletionRun(check, marked, todo).1|]
    ensures DeletionRun(check, marked, todo).0.Pass? <==> |DeletionRun(check, marked, todo).1| == |todo|
    ensures DeletionRun(check, marked, todo).0.Fail? ==>
      DeletionRun(check, marked, todo).0 ==
      check(marked + Members(DeletionRun(check, marked, todo).1), todo[|DeletionRun(check, marked, todo).1|])
    decreases |todo|
  {
    if todo != [] && check(marked, todo[0]).Pass? {
      var n := todo[0];
      DeletionRunPrefix(check, marked + {n}, todo[1..]);
      var rest := DeletionRun(check, marked + {n}, todo[1..]).1;
      assert todo[..|rest| + 1] == [n] + todo[1..][..|rest|];
      assert marked + {n} + Members(rest) == marked + Members([n] + rest);
    } else if todo != [] {
      assert DeletionRun(check, marked, todo) == (check(marked, todo[0]), []);
      assert Members([]) == {};
      assert marked + Members([]) == marked;
    }
  }

  /** Each number a deletion loop marks passed its check under the numbers marked before it. */
  lemma {:induction false} DeletionRunChecked(check: Check, marked: set<int>, todo: seq<int>)
    ensures forall j :: 0 <= j < |DeletionRun(check, marked, todo).1| ==>
      check(marked + Members(DeletionRun(check, marked, todo).1[..j]), DeletionRun(check, marked, todo).1[j]).Pass?
    decreases |todo|
  {
    if todo != [] && check(marked, todo[0]).Pass? {
      var n := todo[0];
      DeletionRunChecked(check, marked + {n}, todo[1..]);
      var rest := DeletionRun(check, marked + {n}, todo[1..]).1;
      var d := [n] + rest;
      assert DeletionRun(check, marked, todo).1 == d;
      forall j | 0 <= j < |d|
        ensures check(marked + Members(d[..j]), d[j]).Pass?
      {
        if j > 0 {
          assert d[..j] == [n] + rest[..j - 1];
          assert marked + Members(d[..j]) == (marked + {n}) + Members(rest[..j - 1]);
          assert d[j] == rest[j - 1];
        } else {
          assert marked + Members(d[..0]) == marked;
        }
      }
    }
  }

  /**
   * Where a deletion loop stands after its first `i` numbers were marked:
   * the run from the start is those numbers followed by the run from here.
   */
  ghost predicate RunAt(check: Check, start: set<int>, todo: seq<int>, i: int, marked: set<int>)
  {
    0 <= i <= |todo| && marked == start + Members(todo[..i]) &&
    DeletionRun(check, start, todo) ==
      (DeletionRun(check, marked, todo[i..]).0, todo[..i] + DeletionRun(check, marked, todo[i..]).1)
  }

  lemma RunAtStart(check: Check, start: set<int>, todo: seq<int>)
    ensures RunAt(check, start, todo, 0, start)
  {
    assert todo[..0] == [] && todo[0..] == todo;
    assert start + Members([]) == start;
    var d := DeletionRun(check, start, todo);
    assert [] + d.1 == d.1;
    assert d == (d.0, d.1);
  }

  /** A number whose check passes is marked, and the loop moves on. */
  lemma RunAdvance(check: Check, start: set<int>, todo: seq<int>, i: int, marked: set<int>)
    requires RunAt(check, start, todo, i, marked) && i < |todo|
    requires check(marked, todo[i]).Pass?
    ensures RunAt(check, start, todo, i + 1, marked + {todo[i]})
  {
    var n, rest, rest' := todo[i], todo[i..], todo[i + 1..];
    var next := DeletionRun(check, marked + {n}, rest');
    assert DeletionRun(check, marked, rest) == (next.0, [n] + next.1) by {
      assert rest[0] == n && rest[1..] == rest';
    }
    assert todo[..i + 1] == todo[..i] + [n];
    assert marked + {n} == start + Members(todo[..i + 1]) by {
      SetOfAppend(todo[..i], n);
    }
    assert todo[..i] + ([n] + next.1) == todo[..i + 1] + next.1;
  }

  /** A number whose check fails ends the run with that failure. */
  lemma RunStop(check: Check, start: set<int>, todo: seq<int>, i: int, marked: set<int>)
    requires RunAt(check, start, todo, i, marked) && i < |todo|
    requires check(marked, todo[i]).Fail?
    ensures DeletionRun(check, start, todo) == (check(marked, todo[i]), todo[..i])
  {
    assert todo[i..][0] == todo[i];
    assert todo[..i] + [] == todo[..i];
  }

  /** With every number marked, the run passes having marked them all. */
  lemma RunDone(check: Check, start: set<int>, todo: seq<int>, marked: set<int>)
    requires RunAt(check, start, todo, |todo|, marked)
    ensures DeletionRun(check, start, todo) == (Pass, todo)
  {
    assert todo[|todo|..] == [];
    assert DeletionRun(check, marked, []) == (Pass, []);
    assert todo[..|todo|] + [] == todo;
  }

  /** The check of `deleteMessages`: `DELE` is refused for a number out of range or already marked. */
  function LiveCheck(msgs: seq<ServerMessage>): Check
  {
    (m: set<int>, n: int) => if IsLive(msgs, m, n) then Pass else Fail(PopError)
  }

  /** `deleteMessages` with `dele`: the numbers marked before the server refused one. */
  function UnsafeDeletion(msgs: seq<ServerMessage>, marked: set<int>, todo: seq<int>): (Outcome<FetchError>, seq<int>)
  {
    DeletionRun(LiveCheck(msgs), marked, todo)
  }

  /** Removing the first of a list without duplicates leaves one without duplicates, and without it. */
  lemma NoDuplicatesTail(s: seq<int>)
    requires s != [] && NoDuplicates(s)
    ensures NoDuplicates(s[1..]) && s[0] !in s[1..]
  {
    forall i, j | 0 <= i < j < |s[1..]|
      ensures s[1..][i] != s[1..][j]
    {
      assert s[i + 1] != s[j + 1];
    }
    forall j | 0 <= j < |s[1..]|
      ensures s[1..][j] != s[0]
    {
      assert s[j + 1] != s[0];
    }
  }

  /** The only refusal `deleteMessages` meets is the server's. */
  lemma UnsafeDeletionFailsOnlyOnRefusal(msgs: seq<ServerMessage>, marked: set<int>, todo: seq<int>)
    ensures UnsafeDeletion(msgs, marked, todo).0.Fail? ==> |UnsafeDeletion(msgs, marked, todo).1| < |todo|
    ensures UnsafeDeletion(msgs, marked, todo).0.Fail? ==>
      UnsafeDeletion(msgs, marked, todo).0 == Fail(PopError) &&
      !IsLive(msgs, marked + Members(UnsafeDeletion(msgs, marked, todo).1), todo[|UnsafeDeletion(msgs, marked, todo).1|])
  {
    DeletionRunPrefix(LiveCheck(msgs), marked, todo);
  }

  /** Numbers in range, listed once and not yet marked, are all deleted. */
  lemma {:induction false} UnsafeDeletionOfLiveNumbers(msgs: seq<ServerMessage>, marked: set<int>, todo: seq<int>)
    requires NoDuplicates(todo)
    requires forall n :: n in todo ==> IsLive(msgs, marked, n)
    ensures UnsafeDeletion(msgs, marked, todo) == (Pass, todo)
    decreases |todo|
  {
    if todo != [] {
      NoDuplicatesTail(todo);
      assert todo[0] in todo;
      forall n | n in todo[1..]
        ensures IsLive(msgs, marked + {todo[0]}, n)
      {
        assert n in todo;
      }
      UnsafeDeletionOfLiveNumbers(msgs, marked + {todo[0]}, todo[1..]);
      assert [todo[0]] + todo[1..] == todo;
    }
  }

  /** What `deleteMessages` as written does: `server.delete` is no POP method. */
  function DeleteMessagesAsWritten(msgnums: seq<int>): (r: (Outcome<FetchError>, seq<(int, int)>))
    ensures r.0.Pass? <==> msgnums == []
    ensures r.0.Fail? ==> r.0.error == AttributeError && r.1 == [(1, msgnums[0])]
  {
    if msgnums == [] then (Pass, []) else (Fail(AttributeError), [(1, msgnums[0])])
  }

  /**
   * The fetcher with its configuration: whether the server has `TOP`, the
   * fetch limit (0 for none), and the candidate encodings in the order
   * `list(set(...))` produced them.  Decoding and the email package are
   * parameters.
   */
  class MailFetcher {
    const hasTop: bool
    const fetchLimit: nat
    const fetchEncoding: string
    const defaultEncoding: string
    const kinds: seq<string>
    const codec: Codec
    const lib: EmailLib

    constructor (hasTop: bool, fetchLimit: nat, fetchEncoding: string, defaultEncoding: string,
                 kinds: seq<string>, codec: Codec, lib: EmailLib)
      requires IsCandidateOrder(kinds, fetchEncoding, defaultEncoding)
      ensures this.hasTop == hasTop && this.fetchLimit == fetchLimit
      ensures this.fetchEncoding == fetchEncoding && this.defaultEncoding == defaultEncoding
      ensures this.kinds == kinds && this.codec == codec && this.lib == lib
    {
      this.hasTop := hasTop;
      this.fetchLimit := fetchLimit;
      this.fetchEncoding := fetchEncoding;
      this.defaultEncoding := defaultEncoding;
      this.kinds := kinds;
      this.codec := codec;
      this.lib := lib;
    }

    /**
     * The loop over a list of encodings: the lines decoded under the first
     * encoding that decodes all of them, or `None` when none does.
     */
    method TryEncodings(encs: seq<string>, lines: seq<Bytes>) returns (found: Option<seq<string>>)
      ensures var k := FirstDecodable(codec, encs, lines);
        found == if k < |encs| then Some(DecodeAll(codec, lines, encs[k]).value) else None
    {
      var i := 0;
      while i < |encs|
        invariant 0 <= i <= |encs|
        invariant forall j :: 0 <= j < i ==> DecodeAll(codec, lines, encs[j]).None?
      {
        var text := DecodeAll(codec, lines, encs[i]);
        if text.Some? {
          assert FirstDecodable(codec, encs, lines) == i;
          return Some(text.value);
        }
        i := i + 1;
      }
      assert FirstDecodable(codec, encs, lines) == |encs|;
      found := None;
    }

    /** `decodeFullText`: the candidates in order, then the header-only fallback. */
    method DecodeFullText(lines: seq<Bytes>) returns (r: Result<seq<string>, DecodeFailure>)
      ensures r == FullTextDecoding(codec, kinds, lines)
    {
      var whole := TryEncodings(kinds, lines);
      if whole.Some? {
        return Ok(whole.value);
      }
      var blank := FirstBlank(lines);
      if blank == |lines| {
        return Err(NoBlankLine);
      }
      var hdrs := lines[..blank];
      var common := TryEncodings(CommonEncodings, hdrs);
      if common.Some? {
        return Ok(common.value + ["", CannotDecodeLine]);
      }
      var text := DecodeAll(codec, hdrs, "utf-8");
      var head := if text.Some? then text.value else [UnknownSenderLine];
      r := Ok(head + ["", CannotDecodeLine]);
    }

    /** The header text of a message as the fetcher decodes it: the decoded lines joined by "\n". */
    function HeaderTextOf(m: ServerMessage): Result<string, FetchError>
    {
      match FullTextDecoding(codec, kinds, m.header)
      case Err(_) => Err(ValueError)
      case Ok(ls) => Ok(Join(ls, "\n"))
    }

    /** The full text of a message as the fetcher decodes it. */
    function MessageTextOf(m: ServerMessage): Result<string, FetchError>
    {
      match FullTextDecoding(codec, kinds, m.lines)
      case Err(_) => Err(ValueError)
      case Ok(ls) => Ok(Join(ls, "\n"))
    }

    /** `TOP n 0` and decoding in a session where `marked` are marked. */
    function ServerHeaderText(msgs: seq<ServerMessage>, marked: set<int>, n: int): (r: Result<string, FetchError>)
      ensures r.Ok? ==> IsLive(msgs, marked, n)
    {
      if IsLive(msgs, marked, n) then HeaderTextOf(msgs[n - 1]) else Err(PopError)
    }

    /** Whether the fetch limit replaces message `n` of `count` by a placeholder. */
    predicate Skipped(n: int, count: int)
    {
      fetchLimit != 0 && n <= count - fetchLimit
    }

    /** What `downloadAllHeaders` stores for message `n` in a fresh session. */
    function HeaderEntry(msgs: seq<ServerMessage>, n: int): Result<string, FetchError>
    {
      if Skipped(n, |msgs|) then Ok(SkippedHeader) else ServerHeaderText(msgs, {}, n)
    }

    /** What `downloadAllMessages` stores for message `n`: its text and its size. */
    function MessageEntry(msgs: seq<ServerMessage>, n: int): Result<(string, nat), FetchError>
    {
      if Skipped(n, |msgs|) then Ok((SkippedMail, |SkippedMail|))
      else if !IsLive(msgs, {}, n) then Err(PopError)
      else match MessageTextOf(msgs[n - 1])
        case Err(e) => Err(e)
        case Ok(t) => Ok((t, msgs[n - 1].octets))
    }

    /** `downloadMessage`: the decoded text of message `n`. */
    function MessageText(msgs: seq<ServerMessage>, n: int): Result<string, FetchError>
    {
      if !IsLive(msgs, {}, n) then Err(PopError) else MessageTextOf(msgs[n - 1])
    }

    /**
     * The outcome of `downloadAllHeaders` over the server's headers: one
     * progress report per message tried; on success a text per message
     * from `loadfrom` on and the `LIST` sizes sliced from `loadfrom - 1`;
     * otherwise the error of the first message that failed, or the
     * assertion that the two lists have the same length.
     */
    ghost predicate HeadersLoaded(msgs: seq<ServerMessage>, loadfrom: int,
                                  r: Result<MailIndex, FetchError>, progress: seq<(int, int)>)
    {
      var span := Span(loadfrom, |msgs|);
      var sizes := SliceFrom(Sizes(msgs), loadfrom - 1);
      ProgressFrom(progress, loadfrom, |msgs|) &&
      (r.Ok? ==>
        |progress| == span && |sizes| == span &&
        |r.value.texts| == span &&
        (forall n :: loadfrom <= n < loadfrom + span ==>
          HeaderEntry(msgs, n).Ok? && r.value.texts[n - loadfrom] == HeaderEntry(msgs, n).value) &&
        r.value.sizes == sizes &&
        r.value.loadedFull == (fetchLimit != 0)) &&
      (r.Err? ==>
        (r.error == AssertionError && |progress| == span && |sizes| != span &&
         (forall n :: loadfrom <= n < loadfrom + span ==> HeaderEntry(msgs, n).Ok?)) ||
        (1 <= |progress| <= span &&
         (forall n :: loadfrom <= n < loadfrom + |progress| - 1 ==> HeaderEntry(msgs, n).Ok?) &&
         HeaderEntry(msgs, loadfrom + |progress| - 1) == Err(r.error)))
    }

    /**
     * The outcome of `downloadAllMessages`: one progress report per message
     * tried; on success the text and size of each message from `loadfrom`
     * on; otherwise the error of the first message that failed.
     */
    ghost predicate MessagesLoaded(msgs: seq<ServerMessage>, loadfrom: int,
                                   r: Result<MailIndex, FetchError>, progress: seq<(int, int)>)
    {
      var span := Span(loadfrom, |msgs|);
      ProgressFrom(progress, loadfrom, |msgs|) &&
      (r.Ok? ==>
        |progress| == span &&
        |r.value.texts| == span && |r.value.sizes| == span &&
        (forall n :: loadfrom <= n < loadfrom + span ==>
          MessageEntry(msgs, n).Ok? &&
          r.value.texts[n - loadfrom] == MessageEntry(msgs, n).value.0 &&
          r.value.sizes[n - loadfrom] == MessageEntry(msgs, n).value.1) &&
        r.value.loadedFull == (fetchLimit != 0)) &&
      (r.Err? ==>
        1 <= |progress| <= span &&
        (forall n :: loadfrom <= n < loadfrom + |progress| - 1 ==> MessageEntry(msgs, n).Ok?) &&
        MessageEntry(msgs, loadfrom + |progress| - 1) == Err(r.error))
    }

    /** `downloadMessage`: `RETR`, then decoding. */
    method DownloadMessage(box: Mailbox, msgnum: int) returns (r: Result<string, FetchError>)
      requires box.marked == {}
      ensures r == MessageText(box.messages, msgnum)
    {
      var m := box.Retr(msgnum);
      if m.Err? {
        return Err(m.error);
      }
      var decoded := DecodeFullText(m.value.lines);
      if decoded.Err? {
        return Err(ValueError);
      }
      r := Ok(Join(decoded.value, "\n"));
    }

    /** One round of `downloadAllHeaders`: the placeholder, or `TOP` and decoding. */
    method FetchHeader(box: Mailbox, count: nat, n: int) returns (r: Result<string, FetchError>)
      requires box.marked == {} && count == |box.messages|
      ensures r == HeaderEntry(box.messages, n)
    {
      if fetchLimit != 0 && n <= count - fetchLimit {
        return Ok(SkippedHeader);
      }
      var top := box.Top(n);
      if top.Err? {
        return Err(top.error);
      }
      var decoded := DecodeFullText(top.value);
      if decoded.Err? {
        return Err(ValueError);
      }
      r := Ok(Join(decoded.value, "\n"));
    }

    /** One round of `downloadAllMessages`: the placeholder, or `RETR` and decoding. */
    method FetchMessage(box: Mailbox, count: nat, n: int) returns (r: Result<(string, nat), FetchError>)
      requires box.marked == {} && count == |box.messages|
      ensures r == MessageEntry(box.messages, n)
    {
      if fetchLimit != 0 && n <= count - fetchLimit {
        return Ok((SkippedMail, |SkippedMail|));
      }
      var m := box.Retr(n);
      if m.Err? {
        return Err(m.error);
      }
      var decoded := DecodeFullText(m.value.lines);
      if decoded.Err? {
        return Err(ValueError);
      }
      r := Ok((Join(decoded.value, "\n"), m.value.octets));
    }

    /**
     * `downloadAllHeaders`: the header of every message from `loadfrom` on,
     * fetched with `TOP` unless the fetch limit skips it; without `TOP`
     * the full messages instead.
     */
    method DownloadAllHeaders(box: Mailbox, loadfrom: int) returns (r: Result<MailIndex, FetchError>, progress: seq<(int, int)>)
      requires box.marked == {}
      ensures hasTop ==> HeadersLoaded(box.messages, loadfrom, r, progress)
      ensures !hasTop ==> MessagesLoaded(box.messages, loadfrom, r, progress)
    {
      if !hasTop {
        r, progress := DownloadAllMessages(box, loadfrom);
        return;
      }
      var infos := box.List();
      var count := |infos|;
      var sizes := SliceFrom(infos, loadfrom - 1);
      var span := Span(loadfrom, count);
      var texts: seq<string> := [];
      progress := [];
      var i := 0;
      while i < span
        invariant 0 <= i <= span
        invariant |texts| == i && |progress| == i
        invariant ProgressFrom(progress, loadfrom, count)
        invariant forall m :: loadfrom <= m < loadfrom + i ==>
          HeaderEntry(box.messages, m).Ok? && texts[m - loadfrom] == HeaderEntry(box.messages, m).value
      {
        var n := loadfrom + i;
        progress := progress + [(n, count)];
        var entry := FetchHeader(box, count, n);
        if entry.Err? {
          r := Err(entry.error);
          return;
        }
        texts := texts + [entry.value];
        i := i + 1;
      }
      if |texts| != |sizes| {
        r := Err(AssertionError);
        return;
      }
      r := Ok(MailIndex(texts, sizes, fetchLimit != 0));
    }

    /** `texts` and `sizes` hold the entries of the messages from `loadfrom` on, all fetched. */
    ghost predicate EntriesLoaded(msgs: seq<ServerMessage>, loadfrom: int, texts: seq<string>, sizes: seq<nat>)
    {
      |texts| == |sizes| &&
      forall m :: loadfrom <= m < loadfrom + |texts| ==>
        MessageEntry(msgs, m).Ok? &&
        texts[m - loadfrom] == MessageEntry(msgs, m).value.0 &&
        sizes[m - loadfrom] == MessageEntry(msgs, m).value.1
    }

    /** A fetched entry extends the loaded entries by one. */
    lemma EntriesLoadedStep(msgs: seq<ServerMessage>, loadfrom: int, texts: seq<string>, sizes: seq<nat>,
                            e: (string, nat))
      requires EntriesLoaded(msgs, loadfrom, texts, sizes)
      requires MessageEntry(msgs, loadfrom + |texts|) == Ok(e)
      ensures EntriesLoaded(msgs, loadfrom, texts + [e.0], sizes + [e.1])
    {
      var texts', sizes' := texts + [e.0], sizes + [e.1];
      forall m | loadfrom <= m < loadfrom + |texts'|
        ensures MessageEntry(msgs, m).Ok? &&
          texts'[m - loadfrom] == MessageEntry(msgs, m).value.0 &&
          sizes'[m - loadfrom] == MessageEntry(msgs, m).value.1
      {
        if m < loadfrom + |texts| {
          assert texts'[m - loadfrom] == texts[m - loadfrom] && sizes'[m - loadfrom] == sizes[m - loadfrom];
        }
      }
    }

    /** Every message loaded: the call succeeds with the loaded entries. */
    lemma AllEntriesLoaded(msgs: seq<ServerMessage>, loadfrom: int, texts: seq<string>, sizes: seq<nat>,
                           progress: seq<(int, int)>)
      requires EntriesLoaded(msgs, loadfrom, texts, sizes)
      requires |texts| == |progress| == Span(loadfrom, |msgs|) && ProgressFrom(progress, loadfrom, |msgs|)
      ensures MessagesLoaded(msgs, loadfrom, Ok(MailIndex(texts, sizes, fetchLimit != 0)), progress)
    {
    }

    /** A message that fails ends the call with its error. */
    lemma EntryFailed(msgs: seq<ServerMessage>, loadfrom: int, texts: seq<string>, sizes: seq<nat>,
                      progress: seq<(int, int)>, error: FetchError)
      requires EntriesLoaded(msgs, loadfrom, texts, sizes)
      requires |progress| == |texts| + 1 <= Span(loadfrom, |msgs|) && ProgressFrom(progress, loadfrom, |msgs|)
      requires MessageEntry(msgs, loadfrom + |texts|) == Err(error)
      ensures MessagesLoaded(msgs, loadfrom, Err(error), progress)
    {
    }

    /**
     * `downloadAllMessages`, with each size taken from the octet count
     * `RETR` reports and each message joined into one text.
     */
    method DownloadAllMessages(box: Mailbox, loadfrom: int) returns (r: Result<MailIndex, FetchError>, progress: seq<(int, int)>)
      requires box.marked == {}
      ensures MessagesLoaded(box.messages, loadfrom, r, progress)
    {
      var count := box.Stat();
      var span := Span(loadfrom, count);
      var texts: seq<string> := [];
      var sizes: seq<nat> := [];
      progress := [];
      var i := 0;
      while i < span
        invariant 0 <= i <= span
        invariant |texts| == i && |progress| == i
        invariant ProgressFrom(progress, loadfrom, count)
        invariant EntriesLoaded(box.messages, loadfrom, texts, sizes)
      {
        var n := loadfrom + i;
        progress := progress + [(n, count)];
        var entry := FetchMessage(box, count, n);
        if entry.Err? {
          EntryFailed(box.messages, loadfrom, texts, sizes, progress, entry.error);
          r := Err(entry.error);
          return;
        }
        EntriesLoadedStep(box.messages, loadfrom, texts, sizes, entry.value);
        texts := texts + [entry.value.0];
        sizes := sizes + [entry.value.1];
        i := i + 1;
      }
      AllEntriesLoaded(box.messages, loadfrom, texts, sizes, progress);
      r := Ok(MailIndex(texts, sizes, fetchLimit != 0));
    }

    /** `downloadAllHeaders` as written: the `finally` clause calls `unlock`, which POP3 objects lack. */
    function DownloadAllHeadersAsWritten(msgs: seq<ServerMessage>, loadfrom: int): (r: Result<MailIndex, FetchError>)
      ensures hasTop ==> r == Err(AttributeError)
    {
      if !hasTop then DownloadAllMessagesAsWritten(msgs, loadfrom) else Err(AttributeError)
    }

    /** The offset of the first message from `loadfrom` on that the fetch limit does not skip. */
    function FirstFetched(count: nat, loadfrom: int, span: nat): (f: nat)
      ensures f <= span
      ensures forall n :: loadfrom <= n < loadfrom + f ==> Skipped(n, count)
      ensures f < span ==> !Skipped(loadfrom + f, count)
      decreases span
    {
      if span == 0 then 0
      else if !Skipped(loadfrom, count) then 0
      else 1 + FirstFetched(count, loadfrom + 1, span - 1)
    }

    /**
     * `downloadAllMessages` as written: `len(respsz)` takes the length of
     * the octet count `retr` returns, an integer, so the first message
     * actually fetched ends the call with a `TypeError`.
     */
    function DownloadAllMessagesAsWritten(msgs: seq<ServerMessage>, loadfrom: int): Result<MailIndex, FetchError>
    {
      var span := Span(loadfrom, |msgs|);
      var f := FirstFetched(|msgs|, loadfrom, span);
      if f == span then
        Ok(MailIndex(seq(span, _ => SkippedMail), seq(span, _ => |SkippedMail|), fetchLimit != 0))
      else if !IsLive(msgs, {}, loadfrom + f) then Err(PopError)
      else match MessageTextOf(msgs[loadfrom + f - 1])
        case Err(e) => Err(e)
        case Ok(_) => Err(TypeError)
    }

    /** As written, loading anything from a non-empty range fails: the last message is never skipped. */
    lemma DownloadAllMessagesAsWrittenFails(msgs: seq<ServerMessage>, loadfrom: int)
      requires 1 <= loadfrom <= |msgs|
      ensures DownloadAllMessagesAsWritten(msgs, loadfrom).Err?
    {
      var span := Span(loadfrom, |msgs|);
      assert !Skipped(loadfrom + span - 1, |msgs|);
      assert FirstFetched(|msgs|, loadfrom, span) < span;
    }

    /**
     * When the candidates include Latin-1 and Latin-1 decodes every byte,
     * every message the server has can be downloaded, decoded under the
     * first candidate that works.
     */
    lemma DownloadNeverFailsDecoding(msgs: seq<ServerMessage>, n: int)
      requires IsCandidateOrder(kinds, fetchEncoding, defaultEncoding)
      requires forall b: Bytes :: codec(b, "latin1").Some?
      requires 1 <= n <= |msgs|
      ensures DecodeAll(codec, msgs[n - 1].lines, FirstWorkingKind(codec, kinds, msgs[n - 1].lines)).Some?
      ensures MessageText(msgs, n) ==
        Ok(Join(DecodeAll(codec, msgs[n - 1].lines, FirstWorkingKind(codec, kinds, msgs[n - 1].lines)).value, "\n"))
    {
      assert "latin1" in [fetchEncoding, "ascii", "latin1", "utf8", defaultEncoding];
      Latin1LeavesNoUndecodableMail(codec, kinds, msgs[n - 1].lines);
    }

    /** Message `n` is on the server and its header matches entry `n - 1` of the index. */
    predicate Verified(msgs: seq<ServerMessage>, synch: seq<string>, n: int)
    {
      1 <= n <= |msgs| && n - 1 < |synch| &&
      HeaderTextOf(msgs[n - 1]).Ok? && HeadersMatch(lib, HeaderTextOf(msgs[n - 1]).value, synch[n - 1])
    }

    /**
     * The checks `deleteMessagesSafely` makes on number `n` before deleting
     * it: a number past the count, a `TOP` the server refuses, an
     * undecodable header, a number past the index, and headers that do not
     * match the index each end the run.
     */
    function SafeStep(msgs: seq<ServerMessage>, marked: set<int>, synch: seq<string>, n: int): (r: Outcome<FetchError>)
      ensures r.Pass? <==> Verified(msgs, synch, n) && n !in marked
      ensures r.Fail? && r.error.DeleteSynchError? ==> r.error.msgnum == n
    {
      if n > |msgs| then Fail(DeleteSynchError(n))
      else match ServerHeaderText(msgs, marked, n)
        case Err(e) => Fail(e)
        case Ok(t) =>
          if n - 1 >= |synch| then Fail(IndexError)
          else if !HeadersMatch(lib, t, synch[n - 1]) then Fail(DeleteSynchError(n))
          else Pass
    }

    /** The check of `deleteMessagesSafely` against the index `synch`. */
    function SafeCheck(msgs: seq<ServerMessage>, synch: seq<string>): Check
    {
      (m: set<int>, n: int) => SafeStep(msgs, m, synch, n)
    }

    /**
     * What `deleteMessagesSafely` does in a session where `marked` are
     * marked: each number in turn is checked and then deleted, until a
     * check fails; the outcome and the numbers marked.
     */
    function SafeDeletion(msgs: seq<ServerMessage>, marked: set<int>, synch: seq<string>, todo: seq<int>): (Outcome<FetchError>, seq<int>)
    {
      DeletionRun(SafeCheck(msgs, synch), marked, todo)
    }

    /**
     * Every number safe deletion marks is marked once, was not marked
     * before, and had a header matching its entry in the index; when it
     * fails on a synchronisation error, the error names the number it
     * stopped at.
     */
    lemma SafeDeletionVerified(msgs: seq<ServerMessage>, marked: set<int>, synch: seq<string>, todo: seq<int>)
      ensures NoDuplicates(SafeDeletion(msgs, marked, synch, todo).1)
      ensures forall j :: 0 <= j < |SafeDeletion(msgs, marked, synch, todo).1| ==>
        Verified(msgs, synch, SafeDeletion(msgs, marked, synch, todo).1[j]) &&
        SafeDeletion(msgs, marked, synch, todo).1[j] !in marked
      ensures SafeDeletion(msgs, marked, synch, todo).0.Fail? ==> |SafeDeletion(msgs, marked, synch, todo).1| < |todo|
      ensures SafeDeletion(msgs, marked, synch, todo).0.Fail? && SafeDeletion(msgs, marked, synch, todo).0.error.DeleteSynchError? ==>
        SafeDeletion(msgs, marked, synch, todo).0.error.msgnum == todo[|SafeDeletion(msgs, marked, synch, todo).1|]
    {
      var check := SafeCheck(msgs, synch);
      DeletionRunPrefix(check, marked, todo);
      DeletionRunChecked(check, marked, todo);
      var d := SafeDeletion(msgs, marked, synch, todo).1;
      forall j | 0 <= j < |d|
        ensures Verified(msgs, synch, d[j]) && d[j] !in marked + Members(d[..j])
      {
        assert check(marked + Members(d[..j]), d[j]).Pass?;
      }
      forall i, j | 0 <= i < j < |d|
        ensures d[i] != d[j]
      {
        assert d[i] in d[..j];
      }
    }

    /**
     * An index that holds, for every number to delete, the header the
     * server now has for it lets every one of them be deleted.
     */
    lemma {:induction false} CurrentIndexDeletesAll(msgs: seq<ServerMessage>, marked: set<int>, synch: seq<string>, todo: seq<int>)
      requires NoDuplicates(todo)
      requires forall n :: n in todo ==> IsLive(msgs, marked, n) && n - 1 < |synch| && HeaderTextOf(msgs[n - 1]) == Ok(synch[n - 1])
      ensures SafeDeletion(msgs, marked, synch, todo) == (Pass, todo)
      decreases |todo|
    {
      if todo != [] {
        var n := todo[0];
        assert n in todo;
        NoDuplicatesTail(todo);
        HeadersMatchReflexive(lib, synch[n - 1]);
        assert SafeStep(msgs, marked, synch, n).Pass?;
        forall x | x in todo[1..]
          ensures IsLive(msgs, marked + {n}, x) && x - 1 < |synch| && HeaderTextOf(msgs[x - 1]) == Ok(synch[x - 1])
        {
          assert x in todo;
        }
        CurrentIndexDeletesAll(msgs, marked + {n}, synch, todo[1..]);
        assert [n] + todo[1..] == todo;
      }
    }

    /**
     * An index just loaded with `TOP` from the first message on lets any
     * listed messages the fetch limit did not skip be deleted safely.
     */
    lemma LoadedIndexDeletesSafely(msgs: seq<ServerMessage>, idx: MailIndex, progress: seq<(int, int)>, todo: seq<int>)
      requires HeadersLoaded(msgs, 1, Ok(idx), progress)
      requires NoDuplicates(todo)
      requires forall n :: n in todo ==> 1 <= n <= |msgs| && !Skipped(n, |msgs|)
      ensures SafeDeletion(msgs, {}, idx.texts, todo) == (Pass, todo)
    {
      forall n | n in todo
        ensures IsLive(msgs, {}, n) && n - 1 < |idx.texts| && HeaderTextOf(msgs[n - 1]) == Ok(idx.texts[n - 1])
      {
        assert HeaderEntry(msgs, n).Ok?;
      }
      CurrentIndexDeletesAll(msgs, {}, idx.texts, todo);
    }

    /** The progress reports of the first `i` numbers: each number with its position, counted from 1. */
    ghost predicate Numbered(progress: seq<(int, int)>, msgnums: seq<int>, i: nat)
    {
      i <= |msgnums| && |progress| == i && forall j :: 0 <= j < i ==> progress[j] == (j + 1, msgnums[j])
    }

    /** Reporting the next number keeps the reports numbered. */
    lemma NumberedStep(progress: seq<(int, int)>, msgnums: seq<int>, i: nat)
      requires i < |msgnums| && Numbered(progress, msgnums, i)
      ensures Numbered(progress + [(i + 1, msgnums[i])], msgnums, i + 1)
    {
      var next := progress + [(i + 1, msgnums[i])];
      forall j | 0 <= j <= i
        ensures next[j] == (j + 1, msgnums[j])
      {
        if j < i {
          assert next[j] == progress[j];
        }
      }
    }

    /** The loop of `deleteMessages`: `DELE` for each number in turn until the server refuses one. */
    method MarkForDeletion(box: Mailbox, msgnums: seq<int>) returns (r: Outcome<FetchError>, progress: seq<(int, int)>)
      modifies box`marked
      ensures r == UnsafeDeletion(box.messages, old(box.marked), msgnums).0
      ensures box.marked == old(box.marked) + Members(UnsafeDeletion(box.messages, old(box.marked), msgnums).1)
      ensures |progress| == |UnsafeDeletion(box.messages, old(box.marked), msgnums).1| + (if r.Pass? then 0 else 1)
      ensures |progress| <= |msgnums|
      ensures forall j :: 0 <= j < |progress| ==> progress[j] == (j + 1, msgnums[j])
    {
      ghost var start := box.marked;
      ghost var msgs := box.messages;
      ghost var rule := LiveCheck(msgs);
      ghost var run := UnsafeDeletion(msgs, start, msgnums);
      assert run == DeletionRun(rule, start, msgnums);
      RunAtStart(rule, start, msgnums);
      progress := [];
      var i := 0;
      while i < |msgnums|
        invariant Numbered(progress, msgnums, i)
        invariant RunAt(rule, start, msgnums, i, box.marked)
        invariant box.messages == msgs
      {
        NumberedStep(progress, msgnums, i);
        progress := progress + [(i + 1, msgnums[i])];
        ghost var before := box.marked;
        var ok := box.Dele(msgnums[i]);
        assert ok == rule(before, msgnums[i]);
        if ok.Fail? {
          RunStop(rule, start, msgnums, i, before);
          assert run == (ok, msgnums[..i]) && box.marked == start + Members(msgnums[..i]);
          return ok, progress;
        }
        RunAdvance(rule, start, msgnums, i, before);
        i := i + 1;
      }
      RunDone(rule, start, msgnums, box.marked);
      assert run == (Pass, msgnums) && box.marked == start + Members(msgnums[..|msgnums|]);
      assert msgnums[..|msgnums|] == msgnums;
      r := Pass;
    }

    /**
     * `deleteMessages`, with each number marked by `DELE`; the session is
     * closed whatever happens, so the numbers marked before a refusal are
     * deleted.
     */
    method DeleteMessages(box: Mailbox, msgnums: seq<int>) returns (r: Outcome<FetchError>, progress: seq<(int, int)>)
      requires box.marked == {}
      modifies box
      ensures r == UnsafeDeletion(old(box.messages), {}, msgnums).0
      ensures box.messages == Expunged(old(box.messages), Members(UnsafeDeletion(old(box.messages), {}, msgnums).1))
      ensures box.marked == {}
      ensures |progress| == |UnsafeDeletion(old(box.messages), {}, msgnums).1| + (if r.Pass? then 0 else 1)
      ensures |progress| <= |msgnums|
      ensures forall j :: 0 <= j < |progress| ==> progress[j] == (j + 1, msgnums[j])
    {
      r, progress := MarkForDeletion(box, msgnums);
      assert box.marked == Members(UnsafeDeletion(old(box.messages), {}, msgnums).1);
      box.Quit();
    }

    /** The checks of one round of `deleteMessagesSafely`, made in the session `box`. */
    method CheckBeforeDelete(box: Mailbox, count: nat, synch: seq<string>, n: int) returns (r: Outcome<FetchError>)
      requires count == |box.messages|
      ensures r == SafeStep(box.messages, box.marked, synch, n)
    {
      if n > count {
        return Fail(DeleteSynchError(n));
      }
      var top := box.Top(n);
      if top.Err? {
        return Fail(top.error);
      }
      var decoded := DecodeFullText(top.value);
      if decoded.Err? {
        return Fail(ValueError);
      }
      var hdrs := Join(decoded.value, "\n");
      if n - 1 >= |synch| {
        return Fail(IndexError);
      }
      if !HeadersMatch(lib, hdrs, synch[n - 1]) {
        return Fail(DeleteSynchError(n));
      }
      r := Pass;
    }

    /**
     * `deleteMessagesSafely`, iterating over the requested numbers: each
     * is deleted only once its `TOP` header matches its entry in the index;
     * the session is closed whatever happens.
     */
    method DeleteMessagesSafely(box: Mailbox, msgnums: seq<int>, synch: seq<string>) returns (r: Outcome<FetchError>, progress: seq<(int, int)>)
      requires box.marked == {}
      modifies box
      ensures !hasTop ==> r == Fail(TopNotSupported) && progress == [] && box.messages == old(box.messages)
      ensures hasTop ==> r == SafeDeletion(old(box.messages), {}, synch, msgnums).0
      ensures hasTop ==>
        box.messages == Expunged(old(box.messages), Members(SafeDeletion(old(box.messages), {}, synch, msgnums).1))
      ensures box.marked == {}
      ensures hasTop ==> |progress| == |SafeDeletion(old(box.messages), {}, synch, msgnums).1| + (if r.Pass? then 0 else 1)
      ensures forall j :: 0 <= j < |progress| ==> progress[j] == (j + 1, |msgnums|)
    {
      if !hasTop {
        return Fail(TopNotSupported), [];
      }
      r, progress := MarkVerified(box, msgnums, synch);
      assert box.marked == Members(SafeDeletion(old(box.messages), {}, synch, msgnums).1);
      box.Quit();
    }

    /** The loop of `deleteMessagesSafely`: check, then `DELE`, for each number until a check fails. */
    method MarkVerified(box: Mailbox, msgnums: seq<int>, synch: seq<string>) returns (r: Outcome<FetchError>, progress: seq<(int, int)>)
      modifies box`marked
      ensures r == SafeDeletion(box.messages, old(box.marked), synch, msgnums).0
      ensures box.marked == old(box.marked) + Members(SafeDeletion(box.messages, old(box.marked), synch, msgnums).1)
      ensures |progress| == |SafeDeletion(box.messages, old(box.marked), synch, msgnums).1| + (if r.Pass? then 0 else 1)
      ensures forall j :: 0 <= j < |progress| ==> progress[j] == (j + 1, |msgnums|)
    {
      ghost var start := box.marked;
      ghost var msgs := box.messages;
      ghost var rule := SafeCheck(msgs, synch);
      RunAtStart(rule, start, msgnums);
      var count := box.Stat();
      progress := [];
      var i := 0;
      while i < |msgnums|
        invariant 0 <= i <= |msgnums|
        invariant RunAt(rule, start, msgnums, i, box.marked)
        invariant |progress| == i
        invariant forall j :: 0 <= j < i ==> progress[j] == (j + 1, |msgnums|)
        invariant box.messages == msgs
      {
        var n := msgnums[i];
        ghost var prev := progress;
        progress := progress + [(i + 1, |msgnums|)];
        forall j | 0 <= j <= i
          ensures progress[j] == (j + 1, |msgnums|)
        {
          if j < i {
            assert progress[j] == prev[j];
          }
        }
        ghost var before := box.marked;
        var check := CheckBeforeDelete(box, count, synch, n);
        if check.Fail? {
          RunStop(rule, start, msgnums, i, before);
          return check, progress;
        }
        var _ := box.Dele(n);
        RunAdvance(rule, start, msgnums, i, before);
        i := i + 1;
      }
      RunDone(rule, start, msgnums, box.marked);
      r := Pass;
    }

    /** `deleteMessagesSafely` as written: `enumerate(msgCount)` iterates over an integer. */
    function DeleteMessagesSafelyAsWritten(msgnums: seq<int>): (r: Outcome<FetchError>)
      ensures r.Fail?
      ensures hasTop ==> r == Fail(TypeError)
    {
      if !hasTop then Fail(TopNotSupported) else Fail(TypeError)
    }

    /**
     * `checkSyncError` with the last cached header: the index must not be
     * longer than the inbox, and with `TOP` the header of its last message
     * must match the server's.
     */
    function SyncCheck(msgs: seq<ServerMessage>, synch: seq<string>): Outcome<FetchError>
    {
      if |synch| > |msgs| then Fail(MessageSynchError)
      else if !hasTop then Pass
      else match ServerHeaderText(msgs, {}, |synch|)
        case Err(e) => Fail(e)
        case Ok(t) => if HeadersMatch(lib, t, synch[|synch| - 1]) then Pass else Fail(MessageSynchError)
    }

    /** `checkSyncError`, comparing with the last cached header. */
    method CheckSyncError(box: Mailbox, synch: seq<string>) returns (r: Outcome<FetchError>)
      requires box.marked == {}
      ensures r == SyncCheck(box.messages, synch)
    {
      var last := |synch|;
      var count := box.Stat();
      if last > count {
        return Fail(MessageSynchError);
      }
      if hasTop {
        var top := box.Top(last);
        if top.Err? {
          return Fail(top.error);
        }
        var decoded := DecodeFullText(top.value);
        if decoded.Err? {
          return Fail(ValueError);
        }
        var hdrs := Join(decoded.value, "\n");
        if !HeadersMatch(lib, hdrs, synch[last - 1]) {
          return Fail(MessageSynchError);
        }
      }
      r := Pass;
    }

    /**
     * `checkSyncError` as written: it compares the header text with the
     * list `synchHeaders[:-1]`, whose missing `splitlines` raises once the
     * texts differ, and they always do.
     */
    function CheckSyncErrorAsWritten(msgs: seq<ServerMessage>, synch: seq<string>): Outcome<FetchError>
    {
      if |synch| > |msgs| then Fail(MessageSynchError)
      else if !hasTop then Pass
      else match ServerHeaderText(msgs, {}, |synch|)
        case Err(e) => Fail(e)
        case Ok(_) => Fail(AttributeError)
    }

    /** As written, the check never passes on a server with `TOP`, not even for a current index. */
    lemma CheckSyncErrorAsWrittenNeverPasses(msgs: seq<ServerMessage>, synch: seq<string>)
      requires hasTop
      ensures CheckSyncErrorAsWritten(msgs, synch).Fail?
      ensures |synch| <= |msgs| && ServerHeaderText(msgs, {}, |synch|).Ok? ==>
        CheckSyncErrorAsWritten(msgs, synch) == Fail(AttributeError)
    {
    }

    /** A longer index than the inbox is always out of step. */
    lemma SyncCheckRejectsLongerIndex(msgs: seq<ServerMessage>, synch: seq<string>)
      requires |synch| > |msgs|
      ensures SyncCheck(msgs, synch) == Fail(MessageSynchError)
    {
    }

    /** An index just loaded from the first message on passes the check. */
    lemma LoadedIndexPassesSyncCheck(msgs: seq<ServerMessage>, idx: MailIndex, progress: seq<(int, int)>)
      requires HeadersLoaded(msgs, 1, Ok(idx), progress)
      requires msgs != []
      ensures SyncCheck(msgs, idx.texts) == Pass
    {
      var n := |msgs|;
      assert !Skipped(n, n);
      assert HeaderEntry(msgs, 1 + (n - 1)).Ok?;
      HeadersMatchReflexive(lib, idx.texts[n - 1]);
    }

    /**
     * When messages were deleted elsewhere and new ones arrived, so that
     * the server's message at the index's last number has another
     * Message-Id, the check reports the index out of step.
     */
    lemma SyncCheckDetectsReplacedMessage(msgs: seq<ServerMessage>, synch: seq<string>, t: string)
      requires hasTop
      requires 1 <= |synch| <= |msgs|
      requires HeaderTextOf(msgs[|synch| - 1]) == Ok(t)
      requires MessageIds(SplitLines(t)) != MessageIds(SplitLines(synch[|synch| - 1]))
      ensures SyncCheck(msgs, synch) == Fail(MessageSynchError)
    {
      DifferentMessageIdsNeverMatch(lib, t, synch[|synch| - 1]);
    }

    /**
     * After message `k` was deleted elsewhere, deleting number `k` by
     * number alone is accepted, and closing the session removes the message
     * that followed it.
     */
    lemma StaleNumberDeletedUnsafely(before: seq<ServerMessage>, k: int)
      requires 1 <= k < |before|
      ensures UnsafeDeletion(before[..k - 1] + before[k..], {}, [k]) == (Pass, [k])
      ensures Expunged(before[..k - 1] + before[k..], {k}) == before[..k - 1] + before[k + 1..]
    {
      var after := before[..k - 1] + before[k..];
      assert IsLive(after, {}, k);
      assert LiveCheck(after)({}, k) == Pass;
      assert [k][1..] == [];
      assert UnsafeDeletion(after, {}, [k]) == DeletionRun(LiveCheck(after), {}, [k]);
      assert DeletionRun(LiveCheck(after), {} + {k}, [k][1..]) == (Pass, []);
      assert [k] + [] == [k];
      ExpungedOne(after, k);
      assert after[..k - 1] == before[..k - 1];
      assert after[k..] == before[k + 1..];
    }

    /**
     * In the same situation safe deletion refuses number `k` once the
     * Message-Id lines of the message now there and of the index entry
     * differ, and marks nothing.
     */
    lemma StaleNumberRefusedSafely(before: seq<ServerMessage>, k: int, synch: seq<string>, t: string)
      requires 1 <= k < |before|
      requires k - 1 < |synch|
      requires HeaderTextOf(before[k]) == Ok(t)
      requires MessageIds(SplitLines(t)) != MessageIds(SplitLines(synch[k - 1]))
      ensures SafeDeletion(before[..k - 1] + before[k..], {}, synch, [k]) == (Fail(DeleteSynchError(k)), [])
    {
      var after := before[..k - 1] + before[k..];
      assert after[k - 1] == before[k];
      DifferentMessageIdsNeverMatch(lib, t, synch[k - 1]);
      assert ServerHeaderText(after, {}, k) == Ok(t);
      assert SafeStep(after, {}, synch, k) == Fail(DeleteSynchError(k));
    }
  }
}
