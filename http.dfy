/** The header scan shared by `parseChunk` (src/lib/net.ts) and `paresHeaders`
    (src/net.ts): CRLF-terminated lines are cut out of one chunk, the first is
    split on whitespace into the request line, the others on ": " into a name
    and a value, and what follows the last consumed terminator is the body.
    The text of a line is its UTF-8 decoding, a parameter `decode` here. */
module Http {
  import opened Wire

  /** The GUID appended to the client's key before hashing (section 1.3 of RFC 6455). */
  const MagicString: string := "258EAFA5-E914-47DA-95CA-C5AB0DC85B11"

  /** The text of a response. The redirect of a request that is not an
      upgrade interpolates a missing path as "undefined" and has the body "OK";
      the 101 reply is five lines joined with CR LF, the last itself CR LF,
      so that it ends with a blank line. */
  function Render(r: Response): (t: string)
    ensures r.Found? ==> "HTTP/1.1 302 Found\r\n" <= t && t[|t| - 6..] == "\r\n\r\nOK"
    ensures r.SwitchingProtocols? ==> "HTTP/1.1 101 Switching Protocols\r\n" <= t && t[|t| - 4..] == "\r\n\r\n"
  {
    match r
    case Found(path) =>
      "HTTP/1.1 302 Found\r\nLocation: https://cch137.link/"
      + (if path.Some? then path.value else "undefined") + "\r\n\r\nOK"
    case SwitchingProtocols(accepted) =>
      Join(["HTTP/1.1 101 Switching Protocols", "Connection: Upgrade", "Upgrade: websocket",
            "Sec-WebSocket-Accept: " + accepted, "\r\n"], "\r\n")
  }

  /** `parts.join(sep)`: it starts with the first part and, for two parts or
      more, ends with the separator and the last part. */
  function Join(parts: seq<string>, sep: string): (t: string)
    ensures |parts| >= 1 ==> parts[0] <= t
    ensures |parts| >= 2 ==> var tail := sep + parts[|parts| - 1];
      |tail| <= |t| && t[|t| - |tail|..] == tail
  {
    if |parts| == 0 then "" else if |parts| == 1 then parts[0] else parts[0] + sep + Join(parts[1..], sep)
  }

  /** Header names to values; `None` is a name stored with the value `undefined`. */
  type Headers = map<string, Option<string>>

  /** `headers[name]`: `undefined` for a missing name too. */
  function Lookup(h: Headers, name: string): Option<string>
  {
    if name in h then h[name] else None
  }

  datatype Request = Request(headers: Headers, body: seq<byte>)

  /** Byte k starts a CR LF pair. A read past the end gives `undefined`, which
      equals neither 13 nor 10. */
  predicate IsCrlf(c: seq<byte>, k: nat)
  {
    k + 1 < |c| && c[k] == 13 && c[k + 1] == 10
  }

  /** Byte k starts CR LF CR LF. */
  predicate IsHeaderEnd(c: seq<byte>, k: nat)
  {
    IsCrlf(c, k) && IsCrlf(c, k + 2)
  }

  /** The first CR LF at or after `from`. */
  function NextCrlf(c: seq<byte>, from: nat): (r: Option<nat>)
    decreases |c| - from
    ensures r.Some? ==> from <= r.value && IsCrlf(c, r.value)
    ensures r.Some? ==> forall k :: from <= k < r.value ==> !IsCrlf(c, k)
    ensures r.None? ==> forall k :: from <= k ==> !IsCrlf(c, k)
  {
    if from + 1 >= |c| then None
    else if IsCrlf(c, from) then Some(from)
    else NextCrlf(c, from + 1)
  }

  lemma {:induction false} NextCrlfAt(c: seq<byte>, from: nat, k: nat)
    requires from <= k && IsCrlf(c, k) && forall m :: from <= m < k ==> !IsCrlf(c, m)
    ensures NextCrlf(c, from) == Some(k)
    decreases k - from
  {
    if from < k {
      NextCrlfAt(c, from + 1, k);
    }
  }

  /** The lines a scan keeps, and where the body starts. */
  datatype Lines = Lines(lines: seq<seq<byte>>, bodyStart: nat)

  /** The scan from a line starting at `start`, looking for its terminator
      from `from`. A terminator followed by a second CR LF closes the header
      section, and the line it terminates is not kept; without one, the body
      starts after the last terminator found. */
  function SplitLines(c: seq<byte>, start: nat, from: nat): (r: Lines)
    requires start <= from && start <= |c|
    decreases |c| - from
    ensures start <= r.bodyStart <= |c|
  {
    match NextCrlf(c, from)
    case None => Lines([], start)
    case Some(k) =>
      if IsCrlf(c, k + 2) then Lines([], k + 4)
      else
        var rest := SplitLines(c, k + 2, k + 2);
        Lines([c[start..k]] + rest.lines, rest.bodyStart)
  }

  /** Where the scan moves the body start, it is just past a CR LF. */
  lemma {:induction false} BodyStartAfterCrlf(c: seq<byte>, start: nat, from: nat)
    requires start <= from && start <= |c|
    decreases |c| - from
    ensures var b := SplitLines(c, start, from).bodyStart;
      b > start ==> b >= 2 && IsCrlf(c, b - 2)
  {
    match NextCrlf(c, from)
    case None =>
    case Some(k) =>
      if !IsCrlf(c, k + 2) {
        BodyStartAfterCrlf(c, k + 2, k + 2);
      }
  }

  /** The characters the regular expression `\s` matches in JavaScript. */
  predicate IsJsSpace(ch: char)
  {
    ch == '\t' || ch == '\n' || ch == '\U{000B}' || ch == '\U{000C}' || ch == '\r' || ch == ' '
    || ch == '\U{00A0}' || ch == '\U{1680}' || ('\U{2000}' <= ch <= '\U{200A}')
    || ch == '\U{2028}' || ch == '\U{2029}' || ch == '\U{202F}' || ch == '\U{205F}'
    || ch == '\U{3000}' || ch == '\U{FEFF}'
  }

  predicate NoSpace(s: string)
  {
    forall k :: 0 <= k < |s| ==> !IsJsSpace(s[k])
  }

  function FirstSpace(s: string, from: nat): (r: Option<nat>)
    decreases |s| - from
    ensures r.Some? ==> from <= r.value < |s| && IsJsSpace(s[r.value])
    ensures r.Some? ==> forall k :: from <= k < r.value ==> !IsJsSpace(s[k])
    ensures r.None? ==> forall k :: from <= k < |s| ==> !IsJsSpace(s[k])
  {
    if from >= |s| then None
    else if IsJsSpace(s[from]) then Some(from)
    else FirstSpace(s, from + 1)
  }

  /** `s.split(/\s/g)`: the pieces between single whitespace characters;
      two adjacent spaces give an empty piece. */
  function SplitOnSpace(s: string): (r: seq<string>)
    decreases |s|
    ensures |r| >= 1
  {
    match FirstSpace(s, 0)
    case None => [s]
    case Some(k) => [s[..k]] + SplitOnSpace(s[k + 1..])
  }

  /** `sep` occurs in `s` at index k. */
  predicate SepAt(s: string, sep: string, k: nat)
  {
    k + |sep| <= |s| && s[k..k + |sep|] == sep
  }

  predicate NoSep(s: string, sep: string)
  {
    forall k :: 0 <= k <= |s| ==> !SepAt(s, sep, k)
  }

  function IndexOf(s: string, sep: string, from: nat): (r: Option<nat>)
    decreases |s| - from
    ensures r.Some? ==> from <= r.value && SepAt(s, sep, r.value)
    ensures r.Some? ==> forall k :: from <= k < r.value ==> !SepAt(s, sep, k)
    ensures r.None? ==> forall k :: from <= k <= |s| ==> !SepAt(s, sep, k)
  {
    if from + |sep| > |s| then None
    else if SepAt(s, sep, from) then Some(from)
    else IndexOf(s, sep, from + 1)
  }

  /** The text before the first `sep` holds no `sep`. */
  lemma NoSepBeforeFirst(s: string, sep: string, k: nat)
    requires |sep| > 0 && k <= |s| && forall m :: 0 <= m < k ==> !SepAt(s, sep, m)
    ensures NoSep(s[..k], sep)
  {
    forall m | 0 <= m <= k ensures !SepAt(s[..k], sep, m) {
      if m + |sep| <= k {
        assert !SepAt(s, sep, m);
        assert s[..k][m..m + |sep|] == s[m..m + |sep|];
      }
    }
  }

  /** `s.split(sep)` for a non-empty separator string: joining the pieces
      with `sep` gives `s` back, and the first piece holds no `sep`. */
  function SplitOn(s: string, sep: string): (r: seq<string>)
    requires |sep| > 0
    decreases |s|
    ensures |r| >= 1
    ensures Join(r, sep) == s
    ensures NoSep(r[0], sep)
  {
    match IndexOf(s, sep, 0)
    case None => [s]
    case Some(k) =>
      NoSepBeforeFirst(s, sep, k);
      var rest := SplitOn(s[k + |sep|..], sep);
      assert s[..k] + sep + s[k + |sep|..] == s by {
        assert s[k..k + |sep|] == sep;
        assert s == s[..k] + s[k..k + |sep|] + s[k + |sep|..];
      }
      assert ([s[..k]] + rest)[1..] == rest;
      [s[..k]] + rest
  }

  /** Element i of a destructured split: `undefined` past the end, unless the
      pattern gives the default "" (`const [method = "", ...]`). */
  function Token(fields: seq<string>, i: nat, defaultEmpty: bool): Option<string>
  {
    if i < |fields| then Some(fields[i]) else if defaultEmpty then Some("") else None
  }

  /** The request line's whitespace-separated fields under the reserved keys.
      The method is always a string; with the "" defaults so are the other two. */
  function StoreRequestLine(h: Headers, line: string, defaultEmpty: bool): (r: Headers)
    ensures Lookup(r, ":method:").Some?
    ensures defaultEmpty ==> Lookup(r, ":path:").Some? && Lookup(r, ":protocol:").Some?
  {
    var f := SplitOnSpace(line);
    h[":method:" := Token(f, 0, defaultEmpty)]
     [":path:" := Token(f, 1, defaultEmpty)]
     [":protocol:" := Token(f, 2, defaultEmpty)]
  }

  /** `const [name, value] = header.split(": "); headers[name] = value;`
      Assigning a string to `__proto__` of a plain object changes nothing. */
  function StoreHeaderLine(h: Headers, line: string): (r: Headers)
    ensures var name := match IndexOf(line, ": ", 0) case None => line case Some(k) => line[..k];
      (name == "__proto__" ==> r == h)
      && (name != "__proto__" ==> name in r && r == h[name := r[name]]
                                  && (r[name].None? <==> IndexOf(line, ": ", 0).None?))
  {
    var f := SplitOn(line, ": ");
    if f[0] == "__proto__" then h
    else h[f[0] := if |f| > 1 then Some(f[1]) else None]
  }

  /** The kept lines stored in order: the first one as the request line. */
  function StoreLines(h: Headers, lines: seq<seq<byte>>, isRequestLine: bool,
                      decode: seq<byte> -> string, defaultEmpty: bool): (r: Headers)
    ensures h.Keys <= r.Keys
    ensures isRequestLine && lines != [] ==> ":method:" in r && ":path:" in r && ":protocol:" in r
    decreases |lines|
  {
    if lines == [] then h
    else
      var line := decode(lines[0]);
      var h' := if isRequestLine then StoreRequestLine(h, line, defaultEmpty) else StoreHeaderLine(h, line);
      StoreLines(h', lines[1..], false, decode, defaultEmpty)
  }

  /** What the scan returns for a chunk: nothing parsed and the whole chunk as
      body when it is shorter than 4 bytes. */
  function Parse(c: seq<byte>, decode: seq<byte> -> string, defaultEmpty: bool): (r: Request)
    ensures |r.body| <= |c| && r.body == c[|c| - |r.body|..]
    ensures |c| < 4 ==> r == Request(map[], c)
  {
    if |c| < 4 then Request(map[], c)
    else
      var s := SplitLines(c, 0, 0);
      Request(StoreLines(map[], s.lines, true, decode, defaultEmpty), c[s.bodyStart..])
  }

  /** The outcome of the scan still to run, from line start `i`, search
      position `j`, the headers stored so far and the request-line flag. */
  ghost function Remaining(c: seq<byte>, h: Headers, i: nat, j: nat, isRequestLine: bool,
                           decode: seq<byte> -> string, defaultEmpty: bool): Request
    requires i <= j && i <= |c|
  {
    var s := SplitLines(c, i, j);
    Request(StoreLines(h, s.lines, isRequestLine, decode, defaultEmpty), c[s.bodyStart..])
  }

  lemma RemainingSkip(c: seq<byte>, h: Headers, i: nat, j: nat, isRequestLine: bool,
                      decode: seq<byte> -> string, defaultEmpty: bool)
    requires i <= j && i <= |c| && !IsCrlf(c, j)
    ensures Remaining(c, h, i, j, isRequestLine, decode, defaultEmpty)
         == Remaining(c, h, i, j + 1, isRequestLine, decode, defaultEmpty)
  {
    assert NextCrlf(c, j) == NextCrlf(c, j + 1);
  }

  lemma RemainingAtEnd(c: seq<byte>, h: Headers, i: nat, j: nat, isRequestLine: bool,
                       decode: seq<byte> -> string, defaultEmpty: bool)
    requires i <= j && i <= |c| && IsHeaderEnd(c, j)
    ensures Remaining(c, h, i, j, isRequestLine, decode, defaultEmpty) == Request(h, c[j + 4..])
  {
    assert NextCrlf(c, j) == Some(j);
  }

  lemma RemainingAtRequestLine(c: seq<byte>, h: Headers, i: nat, j: nat,
                               decode: seq<byte> -> string, defaultEmpty: bool)
    requires i <= j && i <= |c| && IsCrlf(c, j) && !IsCrlf(c, j + 2)
    ensures Remaining(c, h, i, j, true, decode, defaultEmpty)
         == Remaining(c, StoreRequestLine(h, decode(c[i..j]), defaultEmpty), j + 2, j + 2, false, decode, defaultEmpty)
  {
    assert NextCrlf(c, j) == Some(j);
  }

  /** After a header line the scan resumes one byte later than the line's
      start; that byte cannot start a terminator, so nothing changes. */
  lemma RemainingAtHeaderLine(c: seq<byte>, h: Headers, i: nat, j: nat,
                              decode: seq<byte> -> string, defaultEmpty: bool)
    requires i <= j && i <= |c| && IsCrlf(c, j) && !IsCrlf(c, j + 2)
    ensures Remaining(c, h, i, j, false, decode, defaultEmpty)
         == Remaining(c, StoreHeaderLine(h, decode(c[i..j])), j + 2, j + 3, false, decode, defaultEmpty)
  {
    assert NextCrlf(c, j) == Some(j);
    RemainingSkip(c, StoreHeaderLine(h, decode(c[i..j])), j + 2, j + 2, false, decode, defaultEmpty);
  }

  lemma RemainingDone(c: seq<byte>, h: Headers, i: nat, j: nat, isRequestLine: bool,
                      decode: seq<byte> -> string, defaultEmpty: bool)
    requires i <= j && i <= |c| && j + 1 >= |c|
    ensures Remaining(c, h, i, j, isRequestLine, decode, defaultEmpty) == Request(h, c[i..])
  {
  }

  /** The inner `for` loop of `parseChunk` and `paresHeaders`: it scans from
      `j` for the next CR LF and handles one terminator. At a CR LF CR LF it
      moves `i` past it and `j` to the end; after the request line it stops
      with `j` on the next line; after a header line it goes on scanning one
      byte later (`j += 2` and then the loop's `j++`). */
  method ScanLines(chunk: seq<byte>, decode: seq<byte> -> string, defaultEmpty: bool,
                   headers: Headers, i: nat, j: nat, isRequestLine: bool)
    returns (headers': Headers, i': nat, j': nat, isRequestLine': bool)
    requires i <= j < |chunk|
    ensures i' <= j' <= |chunk| + 1 && i' <= |chunk| && j < j'
    ensures Remaining(chunk, headers', i', j', isRequestLine', decode, defaultEmpty)
         == Remaining(chunk, headers, i, j, isRequestLine, decode, defaultEmpty)
  {
    headers', i', j', isRequestLine' := headers, i, j, isRequestLine;
    ghost var goal := Remaining(chunk, headers, i, j, isRequestLine, decode, defaultEmpty);
    var size := |chunk|;
    while j' < size
      invariant j <= j' && i' <= j' <= size + 1 && i' <= size
      invariant Remaining(chunk, headers', i', j', isRequestLine', decode, defaultEmpty) == goal
      decreases size - j'
    {
      if chunk[j'] == 13 && j' + 1 < size && chunk[j' + 1] == 10 {
        var header := decode(chunk[i'..j']);
        if j' + 3 < size && chunk[j' + 2] == 13 && chunk[j' + 3] == 10 {
          assert Remaining(chunk, headers', j' + 4, size, isRequestLine', decode, defaultEmpty) == goal by {
            RemainingAtEnd(chunk, headers', i', j', isRequestLine', decode, defaultEmpty);
            RemainingDone(chunk, headers', j' + 4, size, isRequestLine', decode, defaultEmpty);
          }
          i' := j' + 4;
          j' := size;
          return;
        }
        if isRequestLine' {
          assert Remaining(chunk, StoreRequestLine(headers', header, defaultEmpty), j' + 2, j' + 2, false,
                           decode, defaultEmpty) == goal by {
            RemainingAtRequestLine(chunk, headers', i', j', decode, defaultEmpty);
          }
          headers' := StoreRequestLine(headers', header, defaultEmpty);
          isRequestLine' := false;
          i' := j' + 2;
          j' := j' + 2;
          return;
        }
        assert Remaining(chunk, StoreHeaderLine(headers', header), j' + 2, j' + 3, false,
                         decode, defaultEmpty) == goal by {
          RemainingAtHeaderLine(chunk, headers', i', j', decode, defaultEmpty);
        }
        headers' := StoreHeaderLine(headers', header);
        i' := j' + 2;
        j' := j' + 2;
      } else {
        assert Remaining(chunk, headers', i', j' + 1, isRequestLine', decode, defaultEmpty) == goal by {
          RemainingSkip(chunk, headers', i', j', isRequestLine', decode, defaultEmpty);
        }
      }
      j' := j' + 1;
    }
  }

  /** `parseChunk` and `paresHeaders`: the outer loop restarts the line scan
      until it reaches the end of the chunk; the result is `Parse`. */
  method ParseChunk(chunk: seq<byte>, decode: seq<byte> -> string, defaultEmpty: bool)
    returns (req: Request)
    ensures req == Parse(chunk, decode, defaultEmpty)
  {
    var isRequestLine := true;
    var headers: Headers := map[];
    var size := |chunk|;
    if size < 4 {
      return Request(headers, chunk);
    }
    var i: nat, j: nat := 0, 0;
    while j < size
      invariant i <= j <= size + 1 && i <= size
      invariant Remaining(chunk, headers, i, j, isRequestLine, decode, defaultEmpty)
                == Parse(chunk, decode, defaultEmpty)
      decreases size + 1 - j
    {
      headers, i, j, isRequestLine := ScanLines(chunk, decode, defaultEmpty, headers, i, j, isRequestLine);
    }
    RemainingDone(chunk, headers, i, j, isRequestLine, decode, defaultEmpty);
    req := Request(headers, if i == 0 then chunk else chunk[i..]);
  }

  // Properties of the scan, stated without reference to the loop.

  /** A chunk of at least 4 bytes without any CR LF: nothing is stored and
      the whole chunk is the body. */
  lemma ParseWithoutCrlf(c: seq<byte>, decode: seq<byte> -> string, defaultEmpty: bool)
    requires |c| >= 4 && forall k :: 0 <= k < |c| ==> !IsCrlf(c, k)
    ensures Parse(c, decode, defaultEmpty) == Request(map[], c)
  {
    assert NextCrlf(c, 0) == None;
  }

  lemma {:induction false} SplitLinesAtHeaderEnd(c: seq<byte>, start: nat, from: nat, p: nat)
    requires start <= from <= p && start <= |c|
    requires IsHeaderEnd(c, p)
    requires forall k :: from <= k < p ==> !IsHeaderEnd(c, k)
    ensures SplitLines(c, start, from).bodyStart == p + 4
    decreases p - from
  {
    var k := NextCrlf(c, from).value;
    if k < p {
      assert !IsHeaderEnd(c, k);
      assert k + 2 <= p by { assert c[k + 1] == 10 && c[p] == 13; }
      SplitLinesAtHeaderEnd(c, k + 2, k + 2, p);
    }
  }

  /** With a CR LF CR LF in the chunk the body is everything after the first one. */
  lemma ParseBodyAfterHeaderEnd(c: seq<byte>, p: nat, decode: seq<byte> -> string, defaultEmpty: bool)
    requires IsHeaderEnd(c, p) && forall k :: 0 <= k < p ==> !IsHeaderEnd(c, k)
    ensures Parse(c, decode, defaultEmpty).body == c[p + 4..]
  {
    SplitLinesAtHeaderEnd(c, 0, 0, p);
  }

  lemma {:induction false} SplitLinesAfterLast(c: seq<byte>, start: nat, from: nat, q: nat)
    requires start <= from <= q && start <= |c|
    requires IsCrlf(c, q) && forall k :: q < k < |c| ==> !IsCrlf(c, k)
    requires forall k :: from <= k < |c| ==> !IsHeaderEnd(c, k)
    ensures SplitLines(c, start, from).bodyStart == q + 2
    decreases q - from
  {
    var k := NextCrlf(c, from).value;
    assert !IsHeaderEnd(c, k);
    if k == q {
      assert NextCrlf(c, q + 2) == None;
    } else {
      assert k + 2 <= q by { assert c[k + 1] == 10 && c[q] == 13; }
      SplitLinesAfterLast(c, k + 2, k + 2, q);
    }
  }

  /** Without a CR LF CR LF the body is what follows the last CR LF. */
  lemma ParseBodyAfterLastCrlf(c: seq<byte>, q: nat, decode: seq<byte> -> string, defaultEmpty: bool)
    requires |c| >= 4 && forall k :: 0 <= k < |c| ==> !IsHeaderEnd(c, k)
    requires IsCrlf(c, q) && forall k :: q < k < |c| ==> !IsCrlf(c, k)
    ensures Parse(c, decode, defaultEmpty).body == c[q + 2..]
  {
    SplitLinesAfterLast(c, 0, 0, q);
  }

  /** Lines written with a CR LF after each one. */
  function JoinLines(ls: seq<seq<byte>>): seq<byte>
  {
    if ls == [] then [] else ls[0] + [13, 10] + JoinLines(ls[1..])
  }

  /** Lines a request can be written with: no CR LF inside a line, and no empty
      line after the first, which would close the header section early. */
  predicate WellFormedLines(ls: seq<seq<byte>>)
  {
    (forall i, k :: 0 <= i < |ls| && 0 <= k < |ls[i]| ==> !IsCrlf(ls[i], k))
    && (forall i :: 1 <= i < |ls| ==> |ls[i]| > 0)
  }

  /** From `start` on, `c` holds `j` and nothing more. */
  predicate EndsWith(c: seq<byte>, start: nat, j: seq<byte>)
  {
    start + |j| == |c| && forall i :: 0 <= i < |j| ==> c[start + i] == j[i]
  }

  /** From `start` on, `c` holds `line`, then a CR. */
  predicate LineAt(c: seq<byte>, start: nat, line: seq<byte>)
  {
    start + |line| + 1 < |c| && c[start + |line|] == 13
    && forall i :: 0 <= i < |line| ==> c[start + i] == line[i]
  }

  /** The first line of a joined chunk, its terminator and the rest. */
  lemma JoinedFirstLine(c: seq<byte>, start: nat, ls: seq<seq<byte>>, body: seq<byte>)
    requires |ls| > 0 && EndsWith(c, start, JoinLines(ls) + [13, 10] + body)
    ensures LineAt(c, start, ls[0]) && IsCrlf(c, start + |ls[0]|)
    ensures EndsWith(c, start + |ls[0]| + 2, JoinLines(ls[1..]) + [13, 10] + body)
  {
    var line := ls[0];
    var tail := JoinLines(ls[1..]) + [13, 10] + body;
    var j := JoinLines(ls) + [13, 10] + body;
    assert j == line + [13, 10] + tail;
    var e := start + |line|;
    forall i | 0 <= i < |line|
      ensures c[start + i] == line[i]
    {
      assert j[i] == line[i];
    }
    assert c[e] == j[|line|] && c[e + 1] == j[|line| + 1];
    forall i | 0 <= i < |tail|
      ensures c[e + 2 + i] == tail[i]
    {
      assert j[|line| + 2 + i] == tail[i];
    }
  }

  /** No terminator starts inside a line without CR LF: its last byte is
      followed by the CR of its own terminator. */
  lemma NoCrlfInsideLine(c: seq<byte>, start: nat, line: seq<byte>)
    requires LineAt(c, start, line)
    requires forall k :: 0 <= k < |line| ==> !IsCrlf(line, k)
    ensures forall k :: start <= k < start + |line| ==> !IsCrlf(c, k)
  {
    forall k | start <= k < start + |line|
      ensures !IsCrlf(c, k)
    {
      assert c[k] == line[k - start];
      if k + 1 < start + |line| {
        assert c[k + 1] == line[k - start + 1];
        assert !IsCrlf(line, k - start);
      }
    }
  }

  /** A non-empty line without CR LF does not start with one. */
  lemma LineDoesNotStartWithCrlf(c: seq<byte>, start: nat, line: seq<byte>)
    requires |line| > 0 && LineAt(c, start, line)
    requires forall k :: 0 <= k < |line| ==> !IsCrlf(line, k)
    ensures !IsCrlf(c, start)
  {
    assert c[start] == line[0];
    if |line| >= 2 {
      assert !IsCrlf(line, 0);
      assert c[start + 1] == line[1];
    }
  }

  /** The scan over a line ended by a CR LF that is not followed by another. */
  lemma SplitLinesStep(c: seq<byte>, start: nat, line: seq<byte>)
    requires LineAt(c, start, line) && IsCrlf(c, start + |line|) && !IsCrlf(c, start + |line| + 2)
    requires forall k :: start <= k < start + |line| ==> !IsCrlf(c, k)
    ensures var rest := SplitLines(c, start + |line| + 2, start + |line| + 2);
      SplitLines(c, start, start) == Lines([line] + rest.lines, rest.bodyStart)
  {
    var e := start + |line|;
    NextCrlfAt(c, start, e);
    assert c[start..e] == line;
  }

  /** The scan over a line ended by CR LF CR LF. */
  lemma SplitLinesEnd(c: seq<byte>, start: nat, e: nat)
    requires start <= e && IsCrlf(c, e) && IsCrlf(c, e + 2)
    requires forall k :: start <= k < e ==> !IsCrlf(c, k)
    ensures SplitLines(c, start, start) == Lines([], e + 4)
  {
    NextCrlfAt(c, start, e);
  }

  lemma WellFormedTail(ls: seq<seq<byte>>)
    requires |ls| > 0 && WellFormedLines(ls)
    ensures WellFormedLines(ls[1..])
  {
    var rest := ls[1..];
    forall i, k | 0 <= i < |rest| && 0 <= k < |rest[i]|
      ensures !IsCrlf(rest[i], k)
    {
      assert rest[i] == ls[i + 1];
    }
  }

  /** The scan over the first of several joined lines keeps that line and
      goes on at the next. */
  lemma JoinedLineStep(c: seq<byte>, start: nat, ls: seq<seq<byte>>, body: seq<byte>)
    requires |ls| > 1 && WellFormedLines(ls) && EndsWith(c, start, JoinLines(ls) + [13, 10] + body)
    ensures EndsWith(c, start + |ls[0]| + 2, JoinLines(ls[1..]) + [13, 10] + body)
    ensures WellFormedLines(ls[1..])
    ensures SplitLines(c, start, start)
      == Lines([ls[0]] + SplitLines(c, start + |ls[0]| + 2, start + |ls[0]| + 2).lines,
               SplitLines(c, start + |ls[0]| + 2, start + |ls[0]| + 2).bodyStart)
  {
    var e := start + |ls[0]|;
    JoinedFirstLine(c, start, ls, body);
    NoCrlfInsideLine(c, start, ls[0]);
    WellFormedTail(ls);
    JoinedFirstLine(c, e + 2, ls[1..], body);
    LineDoesNotStartWithCrlf(c, e + 2, ls[1..][0]);
    SplitLinesStep(c, start, ls[0]);
  }

  /** The scan over the last joined line stops at the blank line. */
  lemma JoinedLineEnd(c: seq<byte>, start: nat, ls: seq<seq<byte>>, body: seq<byte>)
    requires |ls| == 1 && WellFormedLines(ls) && EndsWith(c, start, JoinLines(ls) + [13, 10] + body)
    ensures SplitLines(c, start, start) == Lines([], |c| - |body|)
  {
    var e := start + |ls[0]|;
    JoinedFirstLine(c, start, ls, body);
    NoCrlfInsideLine(c, start, ls[0]);
    var tail := JoinLines(ls[1..]) + [13, 10] + body;
    assert tail == [13, 10] + body;
    assert c[e + 2] == tail[0] && c[e + 3] == tail[1];
    SplitLinesEnd(c, start, e);
  }

  lemma ConsLines(c: seq<byte>, start: nat, next: nat, head: seq<byte>, tail: seq<seq<byte>>, bodyStart: nat)
    requires start <= next <= |c|
    requires SplitLines(c, start, start)
      == Lines([head] + SplitLines(c, next, next).lines, SplitLines(c, next, next).bodyStart)
    requires SplitLines(c, next, next) == Lines(tail, bodyStart)
    ensures SplitLines(c, start, start) == Lines([head] + tail, bodyStart)
  {
  }

  lemma {:induction false} SplitLinesOfJoin(c: seq<byte>, start: nat, ls: seq<seq<byte>>, body: seq<byte>)
    requires |ls| > 0 && WellFormedLines(ls) && EndsWith(c, start, JoinLines(ls) + [13, 10] + body)
    ensures SplitLines(c, start, start) == Lines(ls[..|ls| - 1], |c| - |body|)
    decreases |ls|
  {
    if |ls| == 1 {
      JoinedLineEnd(c, start, ls, body);
    } else {
      var next := start + |ls[0]| + 2;
      var rest := ls[1..];
      JoinedLineStep(c, start, ls, body);
      SplitLinesOfJoin(c, next, rest, body);
      ConsLines(c, start, next, ls[0], rest[..|rest| - 1], |c| - |body|);
      assert [ls[0]] + rest[..|rest| - 1] == ls[..|ls| - 1];
    }
  }

  /** A request written as lines L0 .. Ln, each followed by CR LF, then a
      second CR LF and a body: L0 is the request line, L1 .. L(n-1) are stored
      as headers, Ln — the line right before the blank line — is dropped, and
      the body comes back exactly, whatever it contains. */
  lemma ParseOfJoinedLines(ls: seq<seq<byte>>, body: seq<byte>, decode: seq<byte> -> string, defaultEmpty: bool)
    requires |ls| > 0 && WellFormedLines(ls)
    ensures Parse(JoinLines(ls) + [13, 10] + body, decode, defaultEmpty)
         == Request(StoreLines(map[], ls[..|ls| - 1], true, decode, defaultEmpty), body)
  {
    var c := JoinLines(ls) + [13, 10] + body;
    assert EndsWith(c, 0, c);
    SplitLinesOfJoin(c, 0, ls, body);
    assert c[|c| - |body|..] == body;
  }

  lemma IndexOfAfter(a: string, b: string)
    requires NoSep(a, ": ")
    ensures IndexOf(a + ": " + b, ": ", 0) == Some(|a|)
  {
    var s := a + ": " + b;
    assert SepAt(s, ": ", |a|) by { assert s[|a|..|a| + 2] == ": "; }
    forall k | 0 <= k < |a|
      ensures !SepAt(s, ": ", k)
    {
      if k + 2 <= |a| {
        assert s[k..k + 2] == a[k..k + 2];
        assert !SepAt(a, ": ", k);
      } else {
        assert s[k + 1] == ':';
      }
    }
  }

  /** A header line `name: value`, possibly followed by more ": "-separated
      text, stores `value` under `name`. */
  lemma HeaderLineEntry(h: Headers, name: string, value: string, tail: string)
    requires NoSep(name, ": ") && NoSep(value, ": ") && name != "__proto__"
    requires tail == "" || (|tail| >= 2 && tail[..2] == ": ")
    ensures StoreHeaderLine(h, name + ": " + value + tail) == h[name := Some(value)]
  {
    var line := name + ": " + value + tail;
    assert line == name + ": " + (value + tail);
    IndexOfAfter(name, value + tail);
    assert line[|name| + 2..] == value + tail;
    assert line[..|name|] == name;
    assert SplitOn(line, ": ") == [name] + SplitOn(value + tail, ": ");
    if tail == "" {
      assert value + tail == value;
      assert IndexOf(value, ": ", 0) == None;
      assert SplitOn(value, ": ") == [value];
    } else {
      assert value + tail == value + ": " + tail[2..];
      IndexOfAfter(value, tail[2..]);
      assert (value + tail)[..|value|] == value;
    }
  }

  /** A line without ": " stores its whole text as a name with no value. */
  lemma HeaderLineWithoutValue(h: Headers, line: string)
    requires NoSep(line, ": ") && line != "__proto__"
    ensures StoreHeaderLine(h, line) == h[line := None]
  {
    assert IndexOf(line, ": ", 0) == None;
  }

  /** A `__proto__` header line changes nothing. */
  lemma ProtoHeaderIgnored(h: Headers, value: string)
    ensures StoreHeaderLine(h, "__proto__" + ": " + value) == h
  {
    var name := "__proto__";
    forall k | 0 <= k <= |name|
      ensures !SepAt(name, ": ", k)
    {
      if k + 2 <= |name| {
        assert name[k] != ':';
      }
    }
    IndexOfAfter(name, value);
    assert (name + ": " + value)[..|name|] == name;
  }

  lemma FirstSpaceAfter(a: string, sp: char, b: string)
    requires NoSpace(a) && IsJsSpace(sp)
    ensures FirstSpace(a + [sp] + b, 0) == Some(|a|)
  {
    var s := a + [sp] + b;
    assert s[|a|] == sp;
    forall k | 0 <= k < |a|
      ensures !IsJsSpace(s[k])
    {
      assert s[k] == a[k];
    }
  }

  /** `METHOD sp PATH sp PROTOCOL` with single whitespace characters between
      three space-free words stores the three words. */
  lemma RequestLineTokens(h: Headers, m: string, p: string, v: string, s1: char, s2: char, defaultEmpty: bool)
    requires NoSpace(m) && NoSpace(p) && NoSpace(v) && IsJsSpace(s1) && IsJsSpace(s2)
    ensures var r := StoreRequestLine(h, m + [s1] + p + [s2] + v, defaultEmpty);
      Lookup(r, ":method:") == Some(m) && Lookup(r, ":path:") == Some(p) && Lookup(r, ":protocol:") == Some(v)
  {
    var line := m + [s1] + p + [s2] + v;
    assert line == m + [s1] + (p + [s2] + v);
    FirstSpaceAfter(m, s1, p + [s2] + v);
    assert line[|m| + 1..] == p + [s2] + v;
    FirstSpaceAfter(p, s2, v);
    assert (p + [s2] + v)[|p| + 1..] == v;
    assert FirstSpace(v, 0) == None;
    assert line[..|m|] == m;
    assert (p + [s2] + v)[..|p|] == p;
    assert SplitOnSpace(p + [s2] + v) == [p] + SplitOnSpace(v);
    assert SplitOnSpace(line) == [m, p, v];
  }

  /** A request line that is one word: `parseChunk` stores "" for the path and
      the protocol, `paresHeaders` stores `undefined`. */
  lemma RequestLineOneWord(h: Headers, m: string, defaultEmpty: bool)
    requires NoSpace(m)
    ensures var r := StoreRequestLine(h, m, defaultEmpty);
      Lookup(r, ":method:") == Some(m)
      && Lookup(r, ":path:") == (if defaultEmpty then Some("") else None)
      && Lookup(r, ":protocol:") == (if defaultEmpty then Some("") else None)
  {
    assert FirstSpace(m, 0) == None;
  }

  // The lines of an upgrade request.

  lemma NameWithoutSeparator(name: string)
    requires forall k :: 0 <= k < |name| ==> name[k] != ':'
    ensures NoSep(name, ": ")
  {
    forall k | 0 <= k <= |name|
      ensures !SepAt(name, ": ", k)
    {
      if k + 2 <= |name| {
        assert name[k] != ':';
      }
    }
  }

  lemma UpgradeLine(h: Headers, line: string)
    requires line == "Upgrade: websocket"
    ensures StoreHeaderLine(h, line) == h["Upgrade" := Some("websocket")]
  {
    NameWithoutSeparator("Upgrade");
    NameWithoutSeparator("websocket");
    assert line == "Upgrade" + ": " + "websocket" + "";
    HeaderLineEntry(h, "Upgrade", "websocket", "");
  }

  lemma KeyLine(h: Headers, line: string, key: string)
    requires line == "Sec-WebSocket-Key: " + key && NoSep(key, ": ")
    ensures StoreHeaderLine(h, line) == h["Sec-WebSocket-Key" := Some(key)]
  {
    NameWithoutSeparator("Sec-WebSocket-Key");
    assert line == "Sec-WebSocket-Key" + ": " + key + "";
    HeaderLineEntry(h, "Sec-WebSocket-Key", key, "");
  }

  /** The headers of a request line followed by `Upgrade: websocket` and a
      key line. */
  lemma UpgradeHeaders(requestLine: seq<byte>, upgrade: seq<byte>, keyLine: seq<byte>, key: string,
                       decode: seq<byte> -> string, defaultEmpty: bool)
    requires decode(upgrade) == "Upgrade: websocket"
    requires decode(keyLine) == "Sec-WebSocket-Key: " + key && key != "" && NoSep(key, ": ")
    ensures var h := StoreLines(map[], [requestLine, upgrade, keyLine], true, decode, defaultEmpty);
      Lookup(h, "Upgrade") == Some("websocket") && Lookup(h, "Sec-WebSocket-Key") == Some(key)
  {
    var h1 := StoreRequestLine(map[], decode(requestLine), defaultEmpty);
    var h2 := StoreHeaderLine(h1, decode(upgrade));
    var h3 := StoreHeaderLine(h2, decode(keyLine));
    calc {
      StoreLines(map[], [requestLine, upgrade, keyLine], true, decode, defaultEmpty);
      { assert [requestLine, upgrade, keyLine][1..] == [upgrade, keyLine]; }
      StoreLines(h1, [upgrade, keyLine], false, decode, defaultEmpty);
      { assert [upgrade, keyLine][1..] == [keyLine]; }
      StoreLines(h2, [keyLine], false, decode, defaultEmpty);
      h3;
    }
    UpgradeLine(h1, decode(upgrade));
    KeyLine(h2, decode(keyLine), key);
  }
}
