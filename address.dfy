/**
 * The `host:port` split of a `node-connect` request (server/index.js,
 * line 17): JavaScript's String.prototype.split with a one-character
 * separator, then the first two pieces taken as host and port.
 */
module Address {

  import opened Base

  /** The pieces between occurrences of `sep`, as "a:b::c".split(':') gives ["a", "b", "", "c"]. */
  function Split(s: string, sep: char): (parts: seq<string>)
    ensures |parts| >= 1
    ensures forall i :: 0 <= i < |parts| ==> sep !in parts[i]
    decreases |s|
  {
    if s == [] then [""]
    else
      var rest := Split(s[1..], sep);
      if s[0] == sep then [""] + rest
      else [[s[0]] + rest[0]] + rest[1..]
  }

  /** The pieces glued back with `sep` between them (Array.prototype.join). */
  function Join(parts: seq<string>, sep: char): string
    requires |parts| >= 1
    decreases |parts|
  {
    if |parts| == 1 then parts[0] else parts[0] + [sep] + Join(parts[1..], sep)
  }

  /** Splitting loses nothing: joining the pieces gives the text back. */
  lemma {:induction false} JoinSplit(s: string, sep: char)
    ensures Join(Split(s, sep), sep) == s
    decreases |s|
  {
    if s != [] {
      var rest := Split(s[1..], sep);
      JoinSplit(s[1..], sep);
      if s[0] == sep {
        assert ([""] + rest)[1..] == rest;
      } else {
        var parts := [[s[0]] + rest[0]] + rest[1..];
        if |rest| > 1 {
          assert parts[1..] == rest[1..];
          assert Join(rest, sep) == rest[0] + [sep] + Join(rest[1..], sep);
        }
      }
    }
  }

  /** A piece free of `sep` in front of the rest of a text stays the first piece. */
  lemma {:induction false} SplitPrepend(w: string, x: string, sep: char)
    requires sep !in w
    ensures Split(w + x, sep) == [w + Split(x, sep)[0]] + Split(x, sep)[1..]
    decreases |w|
  {
    if w != [] {
      assert (w + x)[1..] == w[1..] + x;
      SplitPrepend(w[1..], x, sep);
      var r := Split(x, sep);
      var big := Split(w[1..] + x, sep);
      assert big[0] == w[1..] + r[0] && big[1..] == r[1..];
      assert (w + x)[0] == w[0] && w[0] != sep;
      assert Split(w + x, sep) == [[w[0]] + big[0]] + big[1..];
      assert [w[0]] + (w[1..] + r[0]) == w + r[0];
    } else {
      var r := Split(x, sep);
      assert w + x == x && w + r[0] == r[0];
      assert [r[0]] + r[1..] == r;
    }
  }

  /** Pieces free of `sep` come back out of splitting their join. */
  lemma {:induction false} SplitJoin(parts: seq<string>, sep: char)
    requires |parts| >= 1
    requires forall i :: 0 <= i < |parts| ==> sep !in parts[i]
    ensures Split(Join(parts, sep), sep) == parts
    decreases |parts|
  {
    if |parts| == 1 {
      SplitPrepend(parts[0], [], sep);
      assert parts[0] + [] == parts[0];
    } else {
      var tail := Join(parts[1..], sep);
      SplitJoin(parts[1..], sep);
      assert ([sep] + tail)[1..] == tail;
      assert Split([sep] + tail, sep) == [""] + parts[1..];
      assert parts[0] + [sep] + tail == parts[0] + ([sep] + tail);
      SplitPrepend(parts[0], [sep] + tail, sep);
      var r := Split([sep] + tail, sep);
      assert r[0] == "" && r[1..] == parts[1..];
      assert parts[0] + r[0] == parts[0];
      assert Join(parts, sep) == parts[0] + ([sep] + tail);
      assert [parts[0]] + parts[1..] == parts;
    }
  }

  /** The text splits into one piece exactly when it has no separator. */
  lemma {:induction false} SplitSingle(s: string, sep: char)
    ensures |Split(s, sep)| == 1 <==> sep !in s
    decreases |s|
  {
    if s != [] {
      SplitSingle(s[1..], sep);
      assert sep in s <==> s[0] == sep || sep in s[1..];
    }
  }

  /** What `const [host, port] = data.split(':')` binds; port is undefined without a colon. */
  datatype Endpoint = Endpoint(host: string, port: Option<string>)

  /**
   * Line 17. The host is the text before the first colon (all of it when
   * there is none); the port is the text between the first colon and the
   * next one or the end. Nothing is validated: empty host or port, extra
   * fields and a missing port all pass.
   */
  function ParseEndpoint(data: string): (e: Endpoint)
    ensures ':' !in e.host
    ensures e.port.None? <==> ':' !in data
    ensures e.port.None? ==> e.host == data
    ensures e.port.Some? ==> ':' !in e.port.value
    ensures e.port.Some? ==>
      var n := |e.host| + 1 + |e.port.value|;
      n <= |data| && data[..n] == e.host + [':'] + e.port.value && (n == |data| || data[n] == ':')
  {
    var parts := Split(data, ':');
    JoinSplit(data, ':');
    SplitSingle(data, ':');
    if |parts| >= 2 then
      var tail := Join(parts[1..], ':');
      assert data == parts[0] + [':'] + tail;
      assert parts[1..][0] == parts[1];
      assert |parts[1..]| >= 2 ==> tail == parts[1] + [':'] + Join(parts[2..], ':') by {
        if |parts[1..]| >= 2 { assert parts[1..][1..] == parts[2..]; }
      }
      assert data[..|parts[0]| + 1 + |parts[1]|] == parts[0] + [':'] + parts[1];
      Endpoint(parts[0], Some(parts[1]))
    else
      Endpoint(parts[0], None)
  }
}
