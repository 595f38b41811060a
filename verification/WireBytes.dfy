/** What goes over the wire, in bytes: the tags of requests and replies, and the fixed replies. */
module WireBytes {
  import opened Bytes
  import opened CommandSpec
  import opened Decimal
  import opened EventLoop
  import opened Reply
  import Resp

  // ---- Decimal text -------------------------------------------------------

  /** A natural number is printed as its decimal digits, 48 to 57, without leading zeros. */
  lemma PrintedBytes(n: nat)
    ensures n < 10 ==> FormatInt(n) == [48 + n]
    ensures n >= 10 ==> FormatInt(n) == FormatInt(n / 10) + [48 + n % 10]
    ensures n > 0 ==> FormatInt(-(n as int)) == [45] + FormatInt(n)
  {
  }

  // ---- Requests -----------------------------------------------------------

  /** A request is 42, the number of arguments, 13 10, and for each 36, its length, 13 10, its bytes,
      13 10. */
  lemma {:induction false} RequestBytes(argv: seq<bytes>)
    ensures Resp.EncodeRequest(argv) == [42] + FormatInt(|argv|) + [13, 10] + Resp.EncodeBulks(argv)
    ensures argv != [] ==>
              Resp.EncodeBulks(argv) ==
              [36] + FormatInt(|argv[0]|) + [13, 10] + argv[0] + [13, 10] + Resp.EncodeBulks(argv[1..])
    ensures Resp.EncodeBulks([]) == []
  {
    hide FormatInt;
    Associative([42], FormatInt(|argv|), [13, 10]);
    if argv == [] {
    } else {
      BulkBytes(argv[0]);
    }
  }

  lemma BulkBytes(b: bytes)
    ensures Resp.EncodeBulk(b) == [36] + FormatInt(|b|) + [13, 10] + b + [13, 10]
  {
    hide FormatInt;
    Associative([36], FormatInt(|b|), [13, 10]);
  }

  // ---- Replies ------------------------------------------------------------

  /** Statuses start with 43, errors with 45, integers with 58, bulks with 36, arrays with 42; nil is
      `$-1`; every line ends with 13 10. */
  lemma ReplyBytes(text: bytes, n: int, b: bytes, elems: seq<Reply>)
    ensures Encode(Simple(text)) == [43] + text + [13, 10]
    ensures Encode(Error(text)) == [45] + text + [13, 10]
    ensures Encode(Int(n)) == [58] + FormatInt(n) + [13, 10]
    ensures Encode(Bulk(b)) == [36] + FormatInt(|b|) + [13, 10] + b + [13, 10]
    ensures Encode(Nil) == [36, 45, 49, 13, 10]
    ensures Encode(Array(elems)) == [42] + FormatInt(|elems|) + [13, 10] + EncodeMany(elems)
  {
    hide FormatInt;
    Associative([58], FormatInt(n), [13, 10]);
    BulkBytes(b);
    Associative([42], FormatInt(|elems|), [13, 10]);
  }

  lemma AsciiJoin(s: string, t: string)
    ensures Ascii(s + t) == Ascii(s) + Ascii(t)
  {
  }

  lemma OkBytes()
    ensures Ok() == Simple(
            [79, 75])
  {
    hide Ascii;
    AsciiIs("OK", [79, 75]);
  }

  lemma OomCut()
    ensures "ERR out of memory" == "ERR out of memo" + "ry"
  {
  }

  lemma OomText()
    ensures Ascii("ERR out of memory") ==
            [69, 82, 82, 32, 111, 117, 116, 32, 111, 102, 32, 109, 101, 109, 111]
            + [114, 121]
  {
    hide Ascii;
    OomCut();
    AsciiIs("ERR out of memo", [69, 82, 82, 32, 111, 117, 116, 32, 111, 102, 32, 109, 101, 109, 111]);
    AsciiIs("ry", [114, 121]);
    AsciiJoin("ERR out of memo", "ry");
  }

  lemma OomBytes()
    ensures Oom() == Error(
            [69, 82, 82, 32, 111, 117, 116, 32, 111, 102, 32, 109, 101, 109, 111]
            + [114, 121])
  {
    hide Ascii;
    OomText();
  }

  lemma NotIntegerCut()
    ensures "ERR value is not an integer or out of range" == "ERR value is no" + "t an integer or" + " out of range"
  {
  }

  lemma NotIntegerText()
    ensures Ascii("ERR value is not an integer or out of range") ==
            [69, 82, 82, 32, 118, 97, 108, 117, 101, 32, 105, 115, 32, 110, 111]
            + [116, 32, 97, 110, 32, 105, 110, 116, 101, 103, 101, 114, 32, 111, 114]
            + [32, 111, 117, 116, 32, 111, 102, 32, 114, 97, 110, 103, 101]
  {
    hide Ascii;
    NotIntegerCut();
    AsciiIs("ERR value is no", [69, 82, 82, 32, 118, 97, 108, 117, 101, 32, 105, 115, 32, 110, 111]);
    AsciiIs("t an integer or", [116, 32, 97, 110, 32, 105, 110, 116, 101, 103, 101, 114, 32, 111, 114]);
    AsciiJoin("ERR value is no", "t an integer or");
    AsciiIs(" out of range", [32, 111, 117, 116, 32, 111, 102, 32, 114, 97, 110, 103, 101]);
    AsciiJoin("ERR value is no" + "t an integer or", " out of range");
  }

  lemma NotIntegerBytes()
    ensures NotInteger() == Error(
            [69, 82, 82, 32, 118, 97, 108, 117, 101, 32, 105, 115, 32, 110, 111]
            + [116, 32, 97, 110, 32, 105, 110, 116, 101, 103, 101, 114, 32, 111, 114]
            + [32, 111, 117, 116, 32, 111, 102, 32, 114, 97, 110, 103, 101])
  {
    hide Ascii;
    NotIntegerText();
  }

  lemma WouldOverflowCut()
    ensures "ERR increment or decrement would overflow" == "ERR increment o" + "r decrement wou" + "ld overflow"
  {
  }

  lemma WouldOverflowText()
    ensures Ascii("ERR increment or decrement would overflow") ==
            [69, 82, 82, 32, 105, 110, 99, 114, 101, 109, 101, 110, 116, 32, 111]
            + [114, 32, 100, 101, 99, 114, 101, 109, 101, 110, 116, 32, 119, 111, 117]
            + [108, 100, 32, 111, 118, 101, 114, 102, 108, 111, 119]
  {
    hide Ascii;
    WouldOverflowCut();
    AsciiIs("ERR increment o", [69, 82, 82, 32, 105, 110, 99, 114, 101, 109, 101, 110, 116, 32, 111]);
    AsciiIs("r decrement wou", [114, 32, 100, 101, 99, 114, 101, 109, 101, 110, 116, 32, 119, 111, 117]);
    AsciiJoin("ERR increment o", "r decrement wou");
    AsciiIs("ld overflow", [108, 100, 32, 111, 118, 101, 114, 102, 108, 111, 119]);
    AsciiJoin("ERR increment o" + "r decrement wou", "ld overflow");
  }

  lemma WouldOverflowBytes()
    ensures WouldOverflow() == Error(
            [69, 82, 82, 32, 105, 110, 99, 114, 101, 109, 101, 110, 116, 32, 111]
            + [114, 32, 100, 101, 99, 114, 101, 109, 101, 110, 116, 32, 119, 111, 117]
            + [108, 100, 32, 111, 118, 101, 114, 102, 108, 111, 119])
  {
    hide Ascii;
    WouldOverflowText();
  }

  lemma TooLongCut()
    ensures "ERR string exceeds maximum allowed size" == "ERR string exce" + "eds maximum all" + "owed size"
  {
  }

  lemma TooLongText()
    ensures Ascii("ERR string exceeds maximum allowed size") ==
            [69, 82, 82, 32, 115, 116, 114, 105, 110, 103, 32, 101, 120, 99, 101]
            + [101, 100, 115, 32, 109, 97, 120, 105, 109, 117, 109, 32, 97, 108, 108]
            + [111, 119, 101, 100, 32, 115, 105, 122, 101]
  {
    hide Ascii;
    TooLongCut();
    AsciiIs("ERR string exce", [69, 82, 82, 32, 115, 116, 114, 105, 110, 103, 32, 101, 120, 99, 101]);
    AsciiIs("eds maximum all", [101, 100, 115, 32, 109, 97, 120, 105, 109, 117, 109, 32, 97, 108, 108]);
    AsciiJoin("ERR string exce", "eds maximum all");
    AsciiIs("owed size", [111, 119, 101, 100, 32, 115, 105, 122, 101]);
    AsciiJoin("ERR string exce" + "eds maximum all", "owed size");
  }

  lemma TooLongBytes()
    ensures TooLong() == Error(
            [69, 82, 82, 32, 115, 116, 114, 105, 110, 103, 32, 101, 120, 99, 101]
            + [101, 100, 115, 32, 109, 97, 120, 105, 109, 117, 109, 32, 97, 108, 108]
            + [111, 119, 101, 100, 32, 115, 105, 122, 101])
  {
    hide Ascii;
    TooLongText();
  }

  lemma EmptyCommandCut()
    ensures "ERR empty command" == "ERR empty comma" + "nd"
  {
  }

  lemma EmptyCommandText()
    ensures Ascii("ERR empty command") ==
            [69, 82, 82, 32, 101, 109, 112, 116, 121, 32, 99, 111, 109, 109, 97]
            + [110, 100]
  {
    hide Ascii;
    EmptyCommandCut();
    AsciiIs("ERR empty comma", [69, 82, 82, 32, 101, 109, 112, 116, 121, 32, 99, 111, 109, 109, 97]);
    AsciiIs("nd", [110, 100]);
    AsciiJoin("ERR empty comma", "nd");
  }

  lemma EmptyCommandBytes()
    ensures EmptyCommand() == Error(
            [69, 82, 82, 32, 101, 109, 112, 116, 121, 32, 99, 111, 109, 109, 97]
            + [110, 100])
  {
    hide Ascii;
    EmptyCommandText();
  }

  /** The status PING answers, and the command name. */
  lemma PongBytes()
    ensures Ascii("PONG") == [80, 79, 78, 71]
  {
    hide Ascii;
    AsciiIs("PONG", [80, 79, 78, 71]);
  }

  lemma ArityCut()
    ensures "ERR wrong number of arguments for '" == "ERR wrong numbe" + "r of arguments " + "for '"
  {
  }

  lemma ArityText()
    ensures Ascii("ERR wrong number of arguments for '") ==
            [69, 82, 82, 32, 119, 114, 111, 110, 103, 32, 110, 117, 109, 98, 101]
            + [114, 32, 111, 102, 32, 97, 114, 103, 117, 109, 101, 110, 116, 115, 32]
            + [102, 111, 114, 32, 39]
  {
    hide Ascii;
    ArityCut();
    AsciiIs("ERR wrong numbe", [69, 82, 82, 32, 119, 114, 111, 110, 103, 32, 110, 117, 109, 98, 101]);
    AsciiIs("r of arguments ", [114, 32, 111, 102, 32, 97, 114, 103, 117, 109, 101, 110, 116, 115, 32]);
    AsciiJoin("ERR wrong numbe", "r of arguments ");
    AsciiIs("for '", [102, 111, 114, 32, 39]);
    AsciiJoin("ERR wrong numbe" + "r of arguments ", "for '");
  }

  /** The arity error holds the name between quotes. */
  lemma WrongArityBytes(name: bytes)
    ensures WrongArity(name) == Error(
            [69, 82, 82, 32, 119, 114, 111, 110, 103, 32, 110, 117, 109, 98, 101]
            + [114, 32, 111, 102, 32, 97, 114, 103, 117, 109, 101, 110, 116, 115, 32]
            + [102, 111, 114, 32, 39]
            + name + [39])
  {
    hide Ascii;
    ArityText();
    AsciiIs("'", [39]);
  }

  lemma UnknownCut()
    ensures "ERR unknown command '" == "ERR unknown com" + "mand '"
  {
  }

  lemma UnknownText()
    ensures Ascii("ERR unknown command '") ==
            [69, 82, 82, 32, 117, 110, 107, 110, 111, 119, 110, 32, 99, 111, 109]
            + [109, 97, 110, 100, 32, 39]
  {
    hide Ascii;
    UnknownCut();
    AsciiIs("ERR unknown com", [69, 82, 82, 32, 117, 110, 107, 110, 111, 119, 110, 32, 99, 111, 109]);
    AsciiIs("mand '", [109, 97, 110, 100, 32, 39]);
    AsciiJoin("ERR unknown com", "mand '");
  }

  /** The unknown-command error holds, between quotes, the name's first 64 bytes up to its first 0. */
  lemma UnknownBytes(name: bytes, n: nat)
    requires n <= |name| && n <= 64 && (forall i :: 0 <= i < n ==> name[i] != 0)
    requires n == |name| || n == 64 || name[n] == 0
    ensures UnknownCommand(name) == Error(
            [69, 82, 82, 32, 117, 110, 107, 110, 111, 119, 110, 32, 99, 111, 109]
            + [109, 97, 110, 100, 32, 39]
            + name[..n] + [39])
  {
    hide Ascii, UpToNul;
    UnknownText();
    AsciiIs("'", [39]);
    var head := if |name| < 64 then name else name[..64];
    UpToNulIs(head, n);
    assert head[..n] == name[..n];
  }

  lemma {:induction false} UpToNulIs(s: bytes, n: nat)
    requires n <= |s| && (forall i :: 0 <= i < n ==> s[i] != 0) && (n == |s| || s[n] == 0)
    ensures UpToNul(s) == s[..n]
    decreases n
  {
    if n == 0 {
    } else {
      UpToNulIs(s[1..], n - 1);
      assert s[..n] == [s[0]] + s[1..][..n - 1];
    }
  }

  // ---- Error lines --------------------------------------------------------

  lemma ProtocolLineCut()
    ensures "ERR Protocol error" == "ERR Protocol er" + "ror"
  {
  }

  lemma ProtocolLineText()
    ensures Ascii("ERR Protocol error") ==
            [69, 82, 82, 32, 80, 114, 111, 116, 111, 99, 111, 108, 32, 101, 114]
            + [114, 111, 114]
  {
    hide Ascii;
    ProtocolLineCut();
    AsciiIs("ERR Protocol er", [69, 82, 82, 32, 80, 114, 111, 116, 111, 99, 111, 108, 32, 101, 114]);
    AsciiIs("ror", [114, 111, 114]);
    AsciiJoin("ERR Protocol er", "ror");
  }

  /** The line for a malformed frame. */
  lemma ProtocolLineBytes()
    ensures FrameLine(BadFrame) == [45]
            + ([69, 82, 82, 32, 80, 114, 111, 116, 111, 99, 111, 108, 32, 101, 114]
            + [114, 111, 114])
            + [13, 10]
    ensures FrameLine(Waiting) == [] && FrameLine(Broken) == []
  {
    hide Ascii;
    ProtocolLineText();
  }

  lemma TooLargeLineCut()
    ensures "ERR request too large" == "ERR request too" + " large"
  {
  }

  lemma TooLargeLineText()
    ensures Ascii("ERR request too large") ==
            [69, 82, 82, 32, 114, 101, 113, 117, 101, 115, 116, 32, 116, 111, 111]
            + [32, 108, 97, 114, 103, 101]
  {
    hide Ascii;
    TooLargeLineCut();
    AsciiIs("ERR request too", [69, 82, 82, 32, 114, 101, 113, 117, 101, 115, 116, 32, 116, 111, 111]);
    AsciiIs(" large", [32, 108, 97, 114, 103, 101]);
    AsciiJoin("ERR request too", " large");
  }

  /** The line for a full queue. */
  lemma TooLargeLineBytes()
    ensures ReadLine(TooLarge) == [45]
            + ([69, 82, 82, 32, 114, 101, 113, 117, 101, 115, 116, 32, 116, 111, 111]
            + [32, 108, 97, 114, 103, 101])
            + [13, 10]
    ensures ReadLine(Drained) == [] && ReadLine(Gone) == []
  {
    hide Ascii;
    TooLargeLineText();
  }

  /** The line for a queue without room for a chunk. */
  lemma NoRoomLineBytes()
    ensures ReadLine(NoRoom) == [45]
            + ([69, 82, 82, 32, 111, 117, 116, 32, 111, 102, 32, 109, 101, 109, 111]
            + [114, 121])
            + [13, 10]
  {
    hide Ascii;
    OomText();
  }
}
