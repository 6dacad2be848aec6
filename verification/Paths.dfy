/**
 Path normalization: trim, force a leading slash, refuse blanks and anything
 over 32 bytes.
 */
module Paths {
  import opened Words
  import opened Utf8

  const MAX_PATH_LEN: nat := 32

  datatype VfsError = InvalidPath | PathTooLong | ContentTooLong | NoSpace | ReadOnly | NotFound

  datatype Result<+T> = Ok(value: T) | Err(error: VfsError)

  /** The Unicode White_Space property. */
  predicate IsWhitespace(c: char) {
    var v := c as int;
    || 0x09 <= v <= 0x0D || v == 0x20 || v == 0x85 || v == 0xA0 || v == 0x1680
    || 0x2000 <= v <= 0x200A || v == 0x2028 || v == 0x2029 || v == 0x202F || v == 0x205F || v == 0x3000
  }

  function TrimStart(s: string): string {
    if s != "" && IsWhitespace(s[0]) then TrimStart(s[1..]) else s
  }

  function TrimEnd(s: string): string {
    if s != "" && IsWhitespace(s[|s| - 1]) then TrimEnd(s[..|s| - 1]) else s
  }

  function Trim(s: string): string {
    TrimEnd(TrimStart(s))
  }

  predicate Blank(s: string) {
    forall i :: 0 <= i < |s| ==> IsWhitespace(s[i])
  }

  /** No white space at either end. */
  predicate Trimmed(s: string) {
    s == "" || (!IsWhitespace(s[0]) && !IsWhitespace(s[|s| - 1]))
  }

  /** `s` is `t` with white space around it. */
  ghost predicate Padded(s: string, t: string) {
    exists a: string, b: string :: Blank(a) && Blank(b) && s == a + t + b
  }

  lemma {:induction false} TrimStartSpec(s: string) returns (a: string)
    ensures Blank(a) && s == a + TrimStart(s)
    ensures TrimStart(s) == "" || !IsWhitespace(TrimStart(s)[0])
  {
    if s != "" && IsWhitespace(s[0]) {
      var rest := TrimStartSpec(s[1..]);
      a := [s[0]] + rest;
      assert s == [s[0]] + s[1..];
      assert [s[0]] + (rest + TrimStart(s[1..])) == a + TrimStart(s[1..]);
    } else {
      a := "";
    }
  }

  lemma {:induction false} TrimEndSpec(s: string) returns (b: string)
    ensures Blank(b) && s == TrimEnd(s) + b
    ensures TrimEnd(s) == "" || !IsWhitespace(TrimEnd(s)[|TrimEnd(s)| - 1])
  {
    if s != "" && IsWhitespace(s[|s| - 1]) {
      var rest := TrimEndSpec(s[..|s| - 1]);
      b := rest + [s[|s| - 1]];
      assert s == s[..|s| - 1] + [s[|s| - 1]];
      assert (TrimEnd(s[..|s| - 1]) + rest) + [s[|s| - 1]] == TrimEnd(s[..|s| - 1]) + b;
    } else {
      b := "";
    }
  }

  /** Trimming strips white space at both ends and nothing else. */
  lemma TrimSpec(s: string)
    ensures Trimmed(Trim(s)) && Padded(s, Trim(s))
    ensures Trim(s) == "" <==> Blank(s)
  {
    var a := TrimStartSpec(s);
    var m := TrimStart(s);
    var b := TrimEndSpec(m);
    var t := Trim(s);
    assert m == t + b;
    assert s == a + t + b;
    if t != "" {
      assert t[0] == m[0];
      assert s[|a|] == t[0];
    }
  }

  lemma TrimFixed(s: string)
    requires Trimmed(s)
    ensures Trim(s) == s
  {
  }

  lemma {:induction false} TrimStartSkips(a: string, t: string)
    requires Blank(a)
    ensures TrimStart(a + t) == TrimStart(t)
  {
    if a == "" {
      assert a + t == t;
    } else {
      assert (a + t)[1..] == a[1..] + t;
      TrimStartSkips(a[1..], t);
    }
  }

  lemma {:induction false} TrimEndSkips(t: string, b: string)
    requires Blank(b)
    ensures TrimEnd(t + b) == TrimEnd(t)
  {
    if b == "" {
      assert t + b == t;
    } else {
      var n := |b| - 1;
      assert (t + b)[..|t + b| - 1] == t + b[..n];
      TrimEndSkips(t, b[..n]);
    }
  }

  /** White space around a text makes no difference to what is left after trimming. */
  lemma {:induction false} TrimIgnoresPadding(a: string, t: string, b: string)
    requires Blank(a) && Blank(b)
    ensures Trim(a + (t + b)) == Trim(t)
  {
    TrimStartSkips(a, t + b);
    var front := TrimStartSpec(t);
    var rest := TrimStart(t);
    assert t + b == front + (rest + b);
    TrimStartSkips(front, rest + b);
    if rest == "" {
      assert rest + b == b;
      TrimStartSkips(b, "");
      assert b + "" == b;
    } else {
      assert (rest + b)[0] == rest[0];
      assert TrimStart(rest + b) == rest + b;
      TrimEndSkips(rest, b);
    }
  }

  function Slashed(s: string): string {
    if s != "" && s[0] == '/' then s else "/" + s
  }

  function Normalize(path: string): Result<string> {
    var trimmed := Trim(path);
    if trimmed == "" then Err(InvalidPath)
    else if |Encode(Slashed(trimmed))| > MAX_PATH_LEN then Err(PathTooLong)
    else Ok(Slashed(trimmed))
  }

  /** A path in normal form: slash-led, no trailing white space, at most 32 bytes. */
  predicate Normal(path: string) {
    path != "" && path[0] == '/' && Trimmed(path) && |Encode(path)| <= MAX_PATH_LEN
  }

  /** Normalization yields exactly the normal forms, each of which it leaves
      alone; it refuses exactly blank paths and those too long once slash-led. */
  lemma NormalizeSpec(path: string)
    ensures Normalize(path) == Err(InvalidPath) <==> Blank(path)
    ensures Normalize(path) == Err(PathTooLong) <==>
      !Blank(path) && |Encode(Slashed(Trim(path)))| > MAX_PATH_LEN
    ensures Normalize(path).Ok? ==> Normal(Normalize(path).value) && Normalize(Normalize(path).value) == Normalize(path)
    ensures Normalize(path).Ok? ==>
      Normalize(path).value == if Trim(path)[0] == '/' then Trim(path) else "/" + Trim(path)
  {
    TrimSpec(path);
    if Normalize(path).Ok? {
      var n := Normalize(path).value;
      assert n[|n| - 1] == Trim(path)[|Trim(path)| - 1];
      TrimFixed(n);
    }
  }

  lemma NormalIsFixed(path: string)
    requires Normal(path)
    ensures Normalize(path) == Ok(path)
  {
    TrimFixed(path);
  }

  /** Fills the caller's buffer with a slash and the path and reads it back as
      text; the read back never fails. */
  method CopyWithSlashPrefix(path: string, buffer: array<Byte>) returns (r: Result<string>)
    requires buffer.Length == MAX_PATH_LEN
    modifies buffer
    ensures r == if |Encode("/" + path)| > MAX_PATH_LEN then Err(PathTooLong) else Ok("/" + path)
  {
    var bytes := Encode(path);
    EncodeAppend("/", path);
    assert Encode("/") == [0x2F];
    if |bytes| + 1 > MAX_PATH_LEN {
      return Err(PathTooLong);
    }
    buffer[0] := 0x2F;
    forall i | 0 <= i < |bytes| {
      buffer[i + 1] := bytes[i];
    }
    assert buffer[..|bytes| + 1] == Encode("/" + path);
    DecodeEncode("/" + path);
    var text := Decode(buffer[..|bytes| + 1]);
    r := if text.Some? then Ok(text.value) else Err(InvalidPath);
  }

  method NormalizePath(path: string, buffer: array<Byte>) returns (r: Result<string>)
    requires buffer.Length == MAX_PATH_LEN
    modifies buffer
    ensures r == Normalize(path)
  {
    var trimmed := Trim(path);
    if trimmed == "" {
      return Err(InvalidPath);
    }
    var normalized := trimmed;
    if trimmed[0] != '/' {
      var copied := CopyWithSlashPrefix(trimmed, buffer);
      if copied.Err? {
        return copied;
      }
      normalized := copied.value;
    }
    if |Encode(normalized)| > MAX_PATH_LEN {
      return Err(PathTooLong);
    }
    r := Ok(normalized);
  }
}
