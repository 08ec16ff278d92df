/**
  The slice of Go's `net/http` header handling that the WebSocket upgrade check
  depends on: the server stores request header fields under their canonical
  MIME key, and `Header.Get` canonicalises the name it is asked for and returns
  the first value stored under it, or "" when there is none.
 */
module HttpHeader {
  import opened Wrappers

  /** Field name (canonical) to the values received under it, in arrival order. */
  type Header = map<string, seq<string>>

  /** One `Name: value` line of a request's header section. */
  datatype Field = Field(name: string, value: string)

  /** The reader refuses a header line whose name is not a token (empty names included). */
  datatype HeaderError = MalformedLine(line: Field)

  predicate IsAsciiUpper(c: char) { 'A' <= c <= 'Z' }

  predicate IsAsciiLower(c: char) { 'a' <= c <= 'z' }

  function ToUpper(c: char): char {
    if IsAsciiLower(c) then (c as int - 32) as char else c
  }

  function ToLower(c: char): char {
    if IsAsciiUpper(c) then (c as int + 32) as char else c
  }

  /** `tchar` of section 3.2.6 of RFC 7230: the characters allowed in a field name. */
  predicate IsTokenChar(c: char) {
    || IsAsciiUpper(c) || IsAsciiLower(c) || '0' <= c <= '9'
    || c in "!#$%&'*+-.^_`|~"
  }

  predicate ValidFieldName(s: string) {
    forall i :: 0 <= i < |s| ==> IsTokenChar(s[i])
  }

  /** ASCII case-insensitive equality. */
  predicate EqualFold(a: string, b: string) {
    |a| == |b| && forall i :: 0 <= i < |a| ==> ToLower(a[i]) == ToLower(b[i])
  }

  /** A letter opens a word when it is first or follows a hyphen. */
  predicate StartsWord(s: string, i: int)
    requires 0 <= i < |s|
  {
    i == 0 || s[i - 1] == '-'
  }

  /** Canonical form: word-initial letters upper case, every other letter lower case. */
  predicate IsCanonical(s: string) {
    forall i :: 0 <= i < |s| ==>
      (StartsWord(s, i) ==> !IsAsciiLower(s[i])) && (!StartsWord(s, i) ==> !IsAsciiUpper(s[i]))
  }

  /**
    Go's `CanonicalMIMEHeaderKey`: a name made of token characters is put in
    canonical form; any other name is returned unchanged.
   */
  function CanonicalKey(s: string): (r: string)
    ensures EqualFold(r, s)
    ensures ValidFieldName(s) ==> ValidFieldName(r) && IsCanonical(r)
    ensures !ValidFieldName(s) ==> r == s
  {
    if !ValidFieldName(s) then s
    else seq(|s|, i requires 0 <= i < |s| => if StartsWord(s, i) then ToUpper(s[i]) else ToLower(s[i]))
  }

  /** Canonicalising twice is canonicalising once. */
  lemma CanonicalKeyIdempotent(s: string)
    ensures CanonicalKey(CanonicalKey(s)) == CanonicalKey(s)
  {
    var r := CanonicalKey(s);
    if ValidFieldName(s) {
      var rr := CanonicalKey(r);
      forall i | 0 <= i < |r|
        ensures rr[i] == r[i]
      {
        assert StartsWord(r, i) <==> StartsWord(s, i);
      }
    }
  }

  /** A name already in canonical form is its own canonical key. */
  lemma CanonicalKeyFixed(s: string)
    requires ValidFieldName(s) && IsCanonical(s)
    ensures CanonicalKey(s) == s
  {
    var r := CanonicalKey(s);
    forall i | 0 <= i < |s|
      ensures r[i] == s[i]
    {
    }
  }

  lemma FoldEqualCases(x: char, y: char)
    requires ToLower(x) == ToLower(y)
    ensures ToUpper(x) == ToUpper(y)
    ensures x == '-' <==> y == '-'
  {
  }

  /**
    Two field names select the same header entry exactly when they are equal up to
    ASCII case: `Header.Get` is case-insensitive in the name and sensitive to
    everything else, spelling included.
   */
  lemma SameKeyIffEqualFold(a: string, b: string)
    requires ValidFieldName(a) && ValidFieldName(b)
    ensures CanonicalKey(a) == CanonicalKey(b) <==> EqualFold(a, b)
  {
    var ca, cb := CanonicalKey(a), CanonicalKey(b);
    if EqualFold(a, b) {
      forall i | 0 <= i < |a|
        ensures ca[i] == cb[i]
      {
        FoldEqualCases(a[i], b[i]);
        if i > 0 {
          FoldEqualCases(a[i - 1], b[i - 1]);
        }
      }
    }
    if ca == cb {
      forall i | 0 <= i < |a|
        ensures ToLower(a[i]) == ToLower(b[i])
      {
        assert ToLower(ca[i]) == ToLower(a[i]);
        assert ToLower(cb[i]) == ToLower(b[i]);
      }
    }
  }

  /** The canonical key of a name is the canonical name it equals up to case. */
  lemma CanonicalKeyByFold(s: string, t: string)
    requires ValidFieldName(s) && ValidFieldName(t) && IsCanonical(t) && EqualFold(s, t)
    ensures CanonicalKey(s) == t
  {
    SameKeyIffEqualFold(s, t);
    CanonicalKeyFixed(t);
  }

  /** Append `v` to the values stored under canonical key `k`. */
  function Add(h: Header, k: string, v: string): Header {
    h[k := (if k in h then h[k] else []) + [v]]
  }

  /**
    The header map the server's reader builds from the request's header lines:
    each value is appended under the canonical form of its name; a line whose
    name is not a token (one or more token characters) rejects the whole request.
   */
  function FromLines(lines: seq<Field>): Result<Header, HeaderError>
  {
    if |lines| == 0 then Success(map[])
    else
      var last := lines[|lines| - 1];
      var h :- FromLines(lines[..|lines| - 1]);
      if |last.name| == 0 || !ValidFieldName(last.name) then Failure(MalformedLine(last))
      else Success(Add(h, CanonicalKey(last.name), last.value))
  }

  /** Reference definition: the values of the lines whose name canonicalises to `k`, in order. */
  function ValuesOf(lines: seq<Field>, k: string): seq<string>
  {
    if |lines| == 0 then []
    else
      var last := lines[|lines| - 1];
      ValuesOf(lines[..|lines| - 1], k) + (if CanonicalKey(last.name) == k then [last.value] else [])
  }

  /** No line carries a name that canonicalises to `k`. */
  predicate NoLineNamed(lines: seq<Field>, k: string) {
    forall i :: 0 <= i < |lines| ==> CanonicalKey(lines[i].name) != k
  }

  /** `Header.Get`: the first value stored under the canonical form of `key`, or "". */
  function Get(h: Header, key: string): string
  {
    var k := CanonicalKey(key);
    if k in h && |h[k]| > 0 then h[k][0] else ""
  }

  /**
    A header map built by the reader holds, under each key, exactly the values
    of the lines bearing that name, and no key without such a line.
   */
  lemma {:induction false} FromLinesCollects(lines: seq<Field>, h: Header)
    requires FromLines(lines) == Success(h)
    ensures forall k :: k in h <==> |ValuesOf(lines, k)| > 0
    ensures forall k :: k in h ==> h[k] == ValuesOf(lines, k)
  {
    if |lines| > 0 {
      var init := lines[..|lines| - 1];
      var last := lines[|lines| - 1];
      var h0 := FromLines(init).value;
      FromLinesCollects(init, h0);
      assert h == Add(h0, CanonicalKey(last.name), last.value);
    }
  }

  lemma {:induction false} ValuesOfEmpty(lines: seq<Field>, k: string)
    ensures |ValuesOf(lines, k)| == 0 <==> NoLineNamed(lines, k)
  {
    if |lines| > 0 {
      var init := lines[..|lines| - 1];
      var last := lines[|lines| - 1];
      ValuesOfEmpty(init, k);
      if NoLineNamed(lines, k) {
        assert NoLineNamed(init, k) by {
          forall i | 0 <= i < |init| ensures CanonicalKey(init[i].name) != k {
            assert init[i] == lines[i];
          }
        }
        assert CanonicalKey(last.name) != k;
      } else {
        var i :| 0 <= i < |lines| && CanonicalKey(lines[i].name) == k;
        if i < |init| {
          assert init[i] == lines[i];
          assert !NoLineNamed(init, k);
        }
      }
    }
  }

  /**
    `Get` on a header read from `lines` returns the value of the first line whose
    name canonicalises like `key`, and "" when no line does.
   */
  lemma GetFromLines(lines: seq<Field>, h: Header, key: string)
    requires FromLines(lines) == Success(h)
    ensures NoLineNamed(lines, CanonicalKey(key)) ==> Get(h, key) == ""
    ensures !NoLineNamed(lines, CanonicalKey(key)) ==> |ValuesOf(lines, CanonicalKey(key))| > 0
    ensures !NoLineNamed(lines, CanonicalKey(key)) ==> Get(h, key) == ValuesOf(lines, CanonicalKey(key))[0]
  {
    FromLinesCollects(lines, h);
    ValuesOfEmpty(lines, CanonicalKey(key));
  }
}
