/** Splitting a subscription body into share links: a body with no `://` and
    more than twenty UTF-16 code units is first taken for a base64-encoded
    list and decoded with `atob`; when that throws, or when the body does not
    look encoded, the body itself is split. Either way the text is split at
    `'\n'` only and the lines that trim to nothing are dropped; the lines
    that are kept are not trimmed. */
module Subscription {
  import opened Wrappers
  import opened Text
  import opened Base64

  /** `lines.filter(line => line.trim())`: the lines that are not blank, in
      their order. */
  function NonBlank(lines: seq<string>): (kept: seq<string>)
    ensures |kept| <= |lines|
    decreases |lines|
  {
    if |lines| == 0 then []
    else if Trim(lines[0]) != "" then [lines[0]] + NonBlank(lines[1..])
    else NonBlank(lines[1..])
  }

  /** `text.split('\n').filter(line => line.trim())` */
  function NonBlankLines(text: string): seq<string>
  {
    NonBlank(Split(text, '\n'))
  }

  /** The test at the head of the block: no `://` and a length above 20. */
  predicate LooksEncoded(data: string)
  {
    !Contains(data, "://") && Utf16Length(data) > 20
  }

  /** The lines the block leaves in `servers`. */
  function Servers(data: string): seq<string>
  {
    if LooksEncoded(data) then
      match Atob(Trim(data))
      case Some(decoded) => NonBlankLines(decoded)
      case None => NonBlankLines(data)
    else NonBlankLines(data)
  }

  /** The block itself: `servers` is assigned on the encoded branch, on the
      plain branch, or in the handler of the exception `atob` throws. */
  method SplitBody(data: string) returns (servers: seq<string>)
    ensures servers == Servers(data)
    ensures forall k :: 0 <= k < |servers| ==> Trim(servers[k]) != "" && '\n' !in servers[k]
  {
    servers := [];
    if !Contains(data, "://") && Utf16Length(data) > 20 {
      var decoded := Atob(Trim(data));
      if decoded.Some? {
        servers := NonBlankLines(decoded.value);
        NonBlankLinesSingle(decoded.value);
      } else {
        servers := NonBlankLines(data);
        NonBlankLinesSingle(data);
      }
    } else {
      servers := NonBlankLines(data);
      NonBlankLinesSingle(data);
    }
  }

  // ---------------------------------------------------------------- filter

  /** A kept line is one line of the text, and it is not blank. */
  lemma NonBlankLinesSingle(text: string)
    ensures forall k :: 0 <= k < |NonBlankLines(text)| ==>
      Trim(NonBlankLines(text)[k]) != "" && '\n' !in NonBlankLines(text)[k]
  {
    var parts := Split(text, '\n');
    SplitParts(text, '\n');
    var kept := NonBlankLines(text);
    forall k | 0 <= k < |kept| ensures Trim(kept[k]) != "" && '\n' !in kept[k] {
      NonBlankMember(parts, kept[k]);
      var i :| 0 <= i < |parts| && parts[i] == kept[k];
    }
  }

  /** A line is kept exactly when it is one of the lines and is not blank. */
  lemma {:induction false} NonBlankMember(lines: seq<string>, line: string)
    ensures line in NonBlank(lines) <==> line in lines && Trim(line) != ""
    decreases |lines|
  {
    if |lines| > 0 {
      NonBlankMember(lines[1..], line);
      assert lines == [lines[0]] + lines[1..];
    }
  }

  /** Filtering keeps the order: the lines kept from two runs are the lines
      kept from the first followed by those kept from the second. */
  lemma {:induction false} NonBlankAppend(a: seq<string>, b: seq<string>)
    ensures NonBlank(a + b) == NonBlank(a) + NonBlank(b)
    decreases |a|
  {
    if |a| > 0 {
      assert (a + b)[1..] == a[1..] + b;
      NonBlankAppend(a[1..], b);
    } else {
      assert a + b == b;
    }
  }

  /** Lines that are none of them blank are all kept, untrimmed. */
  lemma {:induction false} NonBlankAll(lines: seq<string>)
    requires forall k :: 0 <= k < |lines| ==> Trim(lines[k]) != ""
    ensures NonBlank(lines) == lines
    decreases |lines|
  {
    if |lines| > 0 {
      NonBlankAll(lines[1..]);
    }
  }

  // ------------------------------------------------------------- the block

  /** Base64 text passes the test at the head of the block once it is long
      enough, and trimming leaves it as it is. */
  lemma EncodedLooksEncoded(body: string)
    requires forall k :: 0 <= k < |body| ==> IsBase64Char(body[k]) || body[k] == '='
    requires |body| > 20
    ensures LooksEncoded(body) && Trim(body) == body
  {
    if Contains(body, "://") {
      ContainsFirst(body, "://");
      assert false;
    }
    TrimWithoutWhiteSpace(body);
  }

  /** A base64-encoded list of share links (longer than twenty characters
      once encoded) comes back as exactly those links, in order. */
  lemma EncodedBody(lines: seq<string>)
    requires |lines| >= 1
    requires forall k :: 0 <= k < |lines| ==> Trim(lines[k]) != "" && '\n' !in lines[k]
    requires IsLatin1(Join(lines, "\n"))
    requires |Btoa(Join(lines, "\n")).value| > 20
    ensures Servers(Btoa(Join(lines, "\n")).value) == lines
  {
    var text := Join(lines, "\n");
    AtobBtoa(text);
    var body := Btoa(text).value;
    EncodedLooksEncoded(body);
    assert Servers(body) == NonBlankLines(text);
    SplitJoin(lines, '\n');
    NonBlankAll(lines);
  }

  /** A body holding a share link is split as it is: its lines that are not
      blank, untrimmed and in order. */
  lemma PlainBody(lines: seq<string>, i: nat)
    requires |lines| >= 1
    requires forall k :: 0 <= k < |lines| ==> Trim(lines[k]) != "" && '\n' !in lines[k]
    requires i < |lines| && Contains(lines[i], "://")
    ensures Servers(Join(lines, "\n")) == lines
  {
    var text := Join(lines, "\n");
    ContainsJoin(lines, "\n", i, "://");
    assert Servers(text) == NonBlankLines(text);
    SplitJoin(lines, '\n');
    NonBlankAll(lines);
  }

  /** When the trimmed body has a character `atob` refuses, the exception is
      caught and the body is split as it is. */
  lemma UndecodableBody(data: string, k: nat)
    requires LooksEncoded(data)
    requires k < |Trim(data)|
    requires !IsBase64Char(Trim(data)[k]) && !IsAsciiWhiteSpace(Trim(data)[k]) && Trim(data)[k] != '='
    ensures Servers(data) == NonBlankLines(data)
  {
    AtobRejects(Trim(data), k);
  }
}
