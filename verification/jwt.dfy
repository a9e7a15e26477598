/** `JwtProvider`, a hand-made JWS compact serialisation (section 7.1 of
    RFC 7515) with an HS256 signature (section 3.2 of RFC 7518) over
    base64url segments without padding (section 5 of RFC 4648), whose
    claims are read back by searching the payload text; and the role and
    header handling of `JwtService.extractRole` and `JwtAuthFilter`.

    The HMAC and the base64url codec are parameters: `Sign` stands for
    HMAC-SHA256 followed by base64url, and a `Codec` for base64url over the
    text's bytes. What the proofs take for granted about them is stated in
    `IsUrlCodec` and `IsSigner`. */
module Jwt {
  import opened Base
  import opened Text
  import opened Seqs

  const DOT := "."
  const HEADER_JSON := "{\"alg\":\"HS256\",\"typ\":\"JWT\"}"
  /** One hour, in milliseconds. */
  const VALIDITY_MS: int := 1000 * 60 * 60

  /** The keys the readers search for. */
  const SUB_KEY := "\"sub\":\""
  const ROLE_KEY := "\"role\":\""
  const EXP_KEY := "\"exp\":"

  /** The pieces of the payload `{"sub":"<u>","role":"<r>","exp":<n>}`. */
  const SUB_OPEN := "{" + SUB_KEY
  const ROLE_OPEN := "\"," + ROLE_KEY
  const EXP_OPEN := "\"," + EXP_KEY
  const CLOSE := "}"

  const QUOTE := '"'

  const FALLBACK_ROLE := "USER"
  const ROLE_ADMIN := "ROLE_ADMIN"
  const ROLE_USER := "ROLE_USER"
  const AUTHORITY_PREFIX := "ROLE_"

  /** base64url without padding, as the encoder and the decoder; `decode`
      gives `None` where Java's decoder throws. */
  datatype Codec = Codec(encode: string -> string, decode: string -> Option<string>)

  /** HMAC-SHA256 under the server secret, rendered in base64url. */
  type Sign = string -> string

  /** Decoding undoes encoding, and the base64url alphabet has no '.'. */
  ghost predicate IsUrlCodec(c: Codec) {
    forall s :: c.decode(c.encode(s)) == Some(s) && !Contains(c.encode(s), DOT)
  }

  /** A signature is never empty (HMAC-SHA256 gives 32 bytes) and has no '.'. */
  ghost predicate IsSigner(sign: Sign) {
    forall d :: sign(d) != [] && !Contains(sign(d), DOT)
  }

  predicate NoQuote(s: string) {
    forall i :: 0 <= i < |s| ==> s[i] != QUOTE
  }

  // ---------------------------------------------------------------------
  // generateToken
  // ---------------------------------------------------------------------

  /** `String.format("{\"sub\":\"%s\",\"role\":\"%s\",\"exp\":%d}", ...)`:
      the name and role are pasted in without any escaping. */
  function PayloadJson(username: string, role: string, exp: int): (json: string)
    ensures |json| == 27 + |username| + |role| + |IntToString(exp)|
    ensures json[..8] == SUB_OPEN && json[8..8 + |username|] == username
  {
    SUB_OPEN + username + ROLE_OPEN + role + EXP_OPEN + IntToString(exp) + CLOSE
  }

  /** `generateToken`: header, payload and signature joined by '.', the
      signature taken over the first two segments. */
  function GenerateToken(username: string, role: string, nowMs: int, codec: Codec, sign: Sign): (t: string)
    ensures var head := codec.encode(HEADER_JSON) + DOT + codec.encode(PayloadJson(username, role, nowMs + VALIDITY_MS));
            t == head + DOT + sign(head)
  {
    var header := codec.encode(HEADER_JSON);
    var payload := codec.encode(PayloadJson(username, role, nowMs + VALIDITY_MS));
    header + DOT + payload + DOT + sign(header + DOT + payload)
  }

  /** A generated token splits into exactly three segments, the third being
      the signature of the first two, and its payload decodes to the JSON
      written, with an expiry one hour after `nowMs`. */
  lemma TokenHasThreeSegments(username: string, role: string, nowMs: int, codec: Codec, sign: Sign)
    requires IsUrlCodec(codec) && IsSigner(sign)
    ensures var parts := JavaSplit(GenerateToken(username, role, nowMs, codec, sign), DOT);
            && |parts| == 3
            && parts[2] == sign(parts[0] + DOT + parts[1])
            && codec.decode(parts[1]) == Some(PayloadJson(username, role, nowMs + VALIDITY_MS))
  {
    var h := codec.encode(HEADER_JSON);
    var p := codec.encode(PayloadJson(username, role, nowMs + VALIDITY_MS));
    var s := sign(h + DOT + p);
    var parts := [h, p, s];
    var t := GenerateToken(username, role, nowMs, codec, sign);
    assert Join(parts[2..], DOT) == s;
    assert Join(parts[1..], DOT) == p + DOT + s;
    assert Join(parts, DOT) == t;
    SingleCharBorderFree('.');
    SplitJoin(parts, DOT);
    assert t != [] by { assert t[|h|] == '.'; }
    assert DropTrailingEmpty(parts) == parts;
  }

  // ---------------------------------------------------------------------
  // Reading claims back
  // ---------------------------------------------------------------------

  /** `new String(decode(token.split("\\.")[1]))`; `None` where Java
      throws (fewer than two segments, or bad base64url). */
  function PayloadOf(token: string, codec: Codec): (r: Option<string>)
    ensures |JavaSplit(token, DOT)| < 2 ==> r.None?
    ensures |JavaSplit(token, DOT)| >= 2 ==> r == codec.decode(JavaSplit(token, DOT)[1])
  {
    var parts := JavaSplit(token, DOT);
    if |parts| < 2 then None else codec.decode(parts[1])
  }

  /** The text between `from` and the next '"', if there is one. */
  function UpToQuote(json: string, from: nat): (r: Option<string>)
    ensures r.Some? ==> from + |r.value| < |json| && json[from..from + |r.value|] == r.value
                        && json[from + |r.value|] == QUOTE && NoQuote(r.value)
    ensures r.None? ==> forall j :: from <= j < |json| ==> json[j] != QUOTE
  {
    var end := IndexOfChar(json, QUOTE, from);
    if end < 0 then None
    else
      var v := json[from..end];
      assert forall i :: 0 <= i < |v| ==> v[i] == json[from + i];
      Some(v)
  }

  /** The role claim as `getRole` reads it from the payload text: after the
      first `"role":"` up to the next quote; "USER" without the key or the
      closing quote. */
  function RoleClaim(json: string): (r: string)
    ensures !Contains(json, ROLE_KEY) ==> r == FALLBACK_ROLE
    ensures r != FALLBACK_ROLE ==> NoQuote(r) && Contains(json, ROLE_KEY + r + [QUOTE])
  {
    if !Contains(json, ROLE_KEY) then FALLBACK_ROLE
    else
      var at := IndexOf(json, ROLE_KEY, 0);
      var value := UpToQuote(json, at + |ROLE_KEY|);
      if value.None? then FALLBACK_ROLE
      else
        var v := value.value;
        KeyThenValue(json, ROLE_KEY, at, v);
        v
  }

  /** A key, a value and the closing quote in a row. */
  lemma KeyThenValue(json: string, key: string, at: int, v: string)
    requires MatchAt(json, key, at)
    requires at + |key| + |v| < |json|
    requires json[at + |key|..at + |key| + |v|] == v && json[at + |key| + |v|] == QUOTE
    ensures Contains(json, key + v + [QUOTE])
  {
    var w := key + v + [QUOTE];
    forall k | 0 <= k < |w| ensures json[at..at + |w|][k] == w[k] {
      if k < |key| {
        assert json[at..at + |key|][k] == key[k];
      } else if k < |key| + |v| {
        assert json[at + |key|..at + |key| + |v|][k - |key|] == v[k - |key|];
      }
    }
    assert MatchAt(json, w, at);
  }

  /** `getRole`: the role claim of the decoded payload; "USER" on any
      failure. */
  function GetRole(token: string, codec: Codec): (r: string)
    ensures PayloadOf(token, codec).None? ==> r == FALLBACK_ROLE
    ensures PayloadOf(token, codec).Some? ==> r == RoleClaim(PayloadOf(token, codec).value)
  {
    var payload := PayloadOf(token, codec);
    if payload.None? then FALLBACK_ROLE else RoleClaim(payload.value)
  }

  /** The subject claim as `getUsername` reads it from the payload text:
      after the first `"sub":"` up to the next quote. Without the key the
      search starts at offset 6 (-1 + 7), so a name is still produced. */
  function SubjectClaim(json: string): (r: Option<string>)
    ensures r.Some? ==> NoQuote(r.value)
    ensures r.Some? && Contains(json, SUB_KEY) ==> Contains(json, SUB_KEY + r.value + [QUOTE])
  {
    var at := IndexOf(json, SUB_KEY, 0);
    var value := UpToQuote(json, at + |SUB_KEY|);
    if value.None? then None
    else
      var v := value.value;
      if at >= 0 then
        KeyThenValue(json, SUB_KEY, at, v);
        Some(v)
      else Some(v)
  }

  /** `getUsername`: the subject claim of the decoded payload; `None` for
      Java's null on any failure. */
  function GetUsername(token: string, codec: Codec): (r: Option<string>)
    ensures PayloadOf(token, codec).None? ==> r.None?
    ensures PayloadOf(token, codec).Some? ==> r == SubjectClaim(PayloadOf(token, codec).value)
  {
    var payload := PayloadOf(token, codec);
    if payload.None? then None else SubjectClaim(payload.value)
  }

  /** The `exp` claim as `validateToken` reads it: from after the first
      `"exp":` up to the next ',' (or else '}'), trimmed, through
      `Long.parseLong`; `None` where Java throws. */
  function ExpClaim(json: string): (r: Option<int>)
    ensures r.Some? ==> LONG_MIN <= r.value <= LONG_MAX
  {
    ExpClaimFrom(json, IndexOf(json, EXP_KEY, 0) + |EXP_KEY|)
  }

  /** The number from `start` up to the next ',' (or else '}'). */
  function ExpClaimFrom(json: string, start: nat): (r: Option<int>)
    ensures r.Some? ==> LONG_MIN <= r.value <= LONG_MAX
  {
    var comma := IndexOfChar(json, ',', start);
    var end := if comma == -1 then IndexOfChar(json, '}', start) else comma;
    if end < start then None else LongValue(json[start..end])
  }

  /** `Long.parseLong(text.trim())`, `None` where it throws. */
  function LongValue(text: string): (r: Option<int>)
    ensures r.Some? ==> LONG_MIN <= r.value <= LONG_MAX
  {
    match ParseLong(Trim(text))
    case Ok(n) => Some(n)
    case Err(_) => None
  }

  /** `validateToken`: exactly three segments, a signature that matches the
      first two, a payload that decodes, and an `exp` claim after `nowMs`. */
  function ValidateToken(token: string, codec: Codec, sign: Sign, nowMs: int): (ok: bool)
    ensures |JavaSplit(token, DOT)| != 3 ==> !ok
    ensures (|JavaSplit(token, DOT)| == 3
             && sign(JavaSplit(token, DOT)[0] + DOT + JavaSplit(token, DOT)[1]) != JavaSplit(token, DOT)[2]) ==> !ok
    ensures ok ==> PayloadOf(token, codec).Some? && ExpClaim(PayloadOf(token, codec).value).Some?
                   && ExpClaim(PayloadOf(token, codec).value).value > nowMs
  {
    var parts := JavaSplit(token, DOT);
    if |parts| != 3 then false
    else if sign(parts[0] + DOT + parts[1]) != parts[2] then false
    else
      match codec.decode(parts[1])
      case None => false
      case Some(json) =>
        var exp := ExpClaim(json);
        exp.Some? && exp.value > nowMs
  }

  // ---------------------------------------------------------------------
  // Where the keys sit in a generated payload
  // ---------------------------------------------------------------------

  /** One differing character rules out a match at `j`. */
  lemma NoMatchAt(s: string, key: string, j: int, d: int)
    requires 0 <= j && 0 <= d < |key|
    requires j + d >= |s| || s[j + d] != key[d]
    ensures !MatchAt(s, key, j)
  {
    if j + |key| <= |s| {
      assert s[j..j + |key|][d] == s[j + d];
    }
  }

  /** `json` is, character by character, the payload text for the name
      `u`, the role `r` and the expiry digits `n`. */
  ghost predicate Laid(json: string, u: string, r: string, n: string) {
    var q := 18 + |u| + |r|;
    && |json| == q + 9 + |n|
    && (forall k :: 0 <= k < 8 ==> json[k] == SUB_OPEN[k])
    && (forall k :: 0 <= k < |u| ==> json[8 + k] == u[k])
    && (forall k :: 0 <= k < 10 ==> json[8 + |u| + k] == ROLE_OPEN[k])
    && (forall k :: 0 <= k < |r| ==> json[18 + |u| + k] == r[k])
    && (forall k :: 0 <= k < 8 ==> json[q + k] == EXP_OPEN[k])
    && (forall k :: 0 <= k < |n| ==> json[q + 8 + k] == n[k])
    && json[q + 8 + |n|] == '}'
  }

  lemma Layout(u: string, r: string, exp: int)
    ensures Laid(PayloadJson(u, r, exp), u, r, IntToString(exp))
  {
  }

  /** The value after a key: the text from `from` up to the next quote. */
  lemma UpToQuoteIs(json: string, from: nat, v: string)
    requires from + |v| < |json| && json[from + |v|] == QUOTE && NoQuote(v)
    requires forall k :: 0 <= k < |v| ==> json[from + k] == v[k]
    ensures UpToQuote(json, from) == Some(v)
  {
    forall j | from <= j < from + |v| ensures json[j] != QUOTE {
      assert json[from + (j - from)] == v[j - from];
    }
    assert IndexOfChar(json, QUOTE, from) == from + |v|;
    assert json[from..from + |v|] == v;
  }

  /** A match of `key` at `at`, given character by character. */
  lemma MatchFrom(json: string, key: string, at: nat)
    requires at + |key| <= |json|
    requires forall k :: 0 <= k < |key| ==> json[at + k] == key[k]
    ensures MatchAt(json, key, at)
  {
    assert json[at..at + |key|] == key;
  }

  /** The first `"sub":"` opens the name. */
  lemma SubKeyFirst(json: string, u: string, r: string, n: string)
    requires Laid(json, u, r, n)
    ensures IndexOf(json, SUB_KEY, 0) == 1
  {
    forall k | 0 <= k < 7 ensures json[1 + k] == SUB_KEY[k] {
      assert json[1 + k] == SUB_OPEN[1 + k];
    }
    MatchFrom(json, SUB_KEY, 1);
    NoMatchAt(json, SUB_KEY, 0, 0);
  }

  /** With a quote-free name, the first `"role":"` is the one the format
      wrote. */
  lemma RoleKeyFirst(json: string, u: string, r: string, n: string)
    requires Laid(json, u, r, n) && NoQuote(u)
    ensures IndexOf(json, ROLE_KEY, 0) == 10 + |u|
  {
    forall k | 0 <= k < 8 ensures json[10 + |u| + k] == ROLE_KEY[k] {
      assert json[8 + |u| + (2 + k)] == ROLE_OPEN[2 + k];
    }
    MatchFrom(json, ROLE_KEY, 10 + |u|);
    forall j | 0 <= j < 10 + |u| ensures !MatchAt(json, ROLE_KEY, j) {
      if j == 1 || j == 5 {
        NoMatchAt(json, ROLE_KEY, j, 1);
      } else if j < 7 {
        NoMatchAt(json, ROLE_KEY, j, 0);
      } else if j == 7 {
        if |u| == 4 {
          assert json[13] == ROLE_OPEN[1];
          NoMatchAt(json, ROLE_KEY, j, 6);
        } else if |u| < 4 {
          assert json[8 + |u|] == ROLE_OPEN[0];
          NoMatchAt(json, ROLE_KEY, j, 1 + |u|);
        } else {
          assert json[12] == u[4];
          NoMatchAt(json, ROLE_KEY, j, 5);
        }
      } else if j < 8 + |u| {
        assert json[j] == u[j - 8];
        NoMatchAt(json, ROLE_KEY, j, 0);
      } else if j == 8 + |u| {
        assert json[j + 1] == ROLE_OPEN[1];
        NoMatchAt(json, ROLE_KEY, j, 1);
      } else {
        assert json[j] == ROLE_OPEN[1];
        NoMatchAt(json, ROLE_KEY, j, 0);
      }
    }
  }

  /** After a quote at `j` that opens a quote-free value `v` followed by a
      closing `","`, the key `"exp":` cannot start at `j`. */
  lemma ExpKeyNotAtValue(json: string, j: int, v: string)
    requires 0 <= j && j + 1 + |v| + 2 <= |json| && json[j] == QUOTE && NoQuote(v)
    requires forall k :: 0 <= k < |v| ==> json[j + 1 + k] == v[k]
    requires json[j + 1 + |v|] == QUOTE && json[j + 2 + |v|] == ','
    ensures !MatchAt(json, EXP_KEY, j)
  {
    if |v| == 0 {
      NoMatchAt(json, EXP_KEY, j, 1);
    } else if |v| <= 2 {
      NoMatchAt(json, EXP_KEY, j, 1 + |v|);
    } else if |v| == 3 {
      NoMatchAt(json, EXP_KEY, j, 5);
    } else {
      assert json[j + 4] == v[3];
      NoMatchAt(json, EXP_KEY, j, 4);
    }
  }

  /** No `"exp":` starts in `{"sub":"<u>`. */
  lemma ExpKeyNotInName(json: string, u: string, r: string, n: string, j: int)
    requires Laid(json, u, r, n) && NoQuote(u) && 0 <= j < 8 + |u|
    ensures !MatchAt(json, EXP_KEY, j)
  {
    if j == 1 || j == 5 {
      NoMatchAt(json, EXP_KEY, j, 1);
    } else if j < 7 {
      NoMatchAt(json, EXP_KEY, j, 0);
    } else if j == 7 {
      assert json[8 + |u|] == ROLE_OPEN[0] && json[9 + |u|] == ROLE_OPEN[1];
      ExpKeyNotAtValue(json, j, u);
    } else {
      assert json[j] == u[j - 8];
      NoMatchAt(json, EXP_KEY, j, 0);
    }
  }

  /** No `"exp":` starts in `","role":"`. */
  lemma ExpKeyNotInRoleOpen(json: string, u: string, r: string, n: string, j: int)
    requires Laid(json, u, r, n) && NoQuote(r) && 8 + |u| <= j < 18 + |u|
    ensures !MatchAt(json, EXP_KEY, j)
  {
    var k := j - (8 + |u|);
    assert json[j] == ROLE_OPEN[k];
    if k == 0 || k == 2 || k == 7 {
      assert json[j + 1] == ROLE_OPEN[k + 1];
      NoMatchAt(json, EXP_KEY, j, 1);
    } else if k == 9 {
      var q := 18 + |u| + |r|;
      assert json[q] == EXP_OPEN[0] && json[q + 1] == EXP_OPEN[1];
      ExpKeyNotAtValue(json, j, r);
    } else {
      NoMatchAt(json, EXP_KEY, j, 0);
    }
  }

  /** No `"exp":` starts in the role or the `","` after it. */
  lemma ExpKeyNotInRole(json: string, u: string, r: string, n: string, j: int)
    requires Laid(json, u, r, n) && NoQuote(r) && 18 + |u| <= j < 20 + |u| + |r|
    ensures !MatchAt(json, EXP_KEY, j)
  {
    var q := 18 + |u| + |r|;
    if j < q {
      assert json[j] == r[j - (18 + |u|)];
      NoMatchAt(json, EXP_KEY, j, 0);
    } else if j == q {
      assert json[j + 1] == EXP_OPEN[1];
      NoMatchAt(json, EXP_KEY, j, 1);
    } else {
      assert json[j] == EXP_OPEN[1];
      NoMatchAt(json, EXP_KEY, j, 0);
    }
  }

  /** With a quote-free name and role, the first `"exp":` is the one the
      format wrote. */
  lemma ExpKeyFirst(json: string, u: string, r: string, n: string)
    requires Laid(json, u, r, n) && NoQuote(u) && NoQuote(r)
    ensures IndexOf(json, EXP_KEY, 0) == 20 + |u| + |r|
  {
    var q := 18 + |u| + |r|;
    forall k | 0 <= k < 6 ensures json[q + 2 + k] == EXP_KEY[k] {
      assert json[q + (2 + k)] == EXP_OPEN[2 + k];
    }
    MatchFrom(json, EXP_KEY, q + 2);
    forall j | 0 <= j < q + 2 ensures !MatchAt(json, EXP_KEY, j) {
      if j < 8 + |u| {
        ExpKeyNotInName(json, u, r, n, j);
      } else if j < 18 + |u| {
        ExpKeyNotInRoleOpen(json, u, r, n, j);
      } else {
        ExpKeyNotInRole(json, u, r, n, j);
      }
    }
  }

  /** The characters of `Long.toString`: an optional '-' then digits. */
  lemma IntToStringChars(n: int)
    ensures var s := IntToString(n);
            && s != [] && IsAsciiDigit(s[|s| - 1])
            && forall i :: 0 <= i < |s| ==> IsAsciiDigit(s[i]) || s[i] == '-'
  {
  }

  /** With a quote-free name and role, the `exp` claim reads back as the
      number written, within the 64-bit range. */
  lemma ExpClaimOfPayload(u: string, r: string, exp: int)
    requires NoQuote(u) && NoQuote(r) && LONG_MIN <= exp <= LONG_MAX
    ensures ExpClaim(PayloadJson(u, r, exp)) == Some(exp)
  {
    var n := IntToString(exp);
    Layout(u, r, exp);
    IntToStringChars(exp);
    ParsesBack(exp);
    ExpClaimOfLaid(PayloadJson(u, r, exp), u, r, n, exp);
  }

  /** The same, for any text laid out like the payload around digits that
      read back as `exp`. */
  lemma ExpClaimOfLaid(json: string, u: string, r: string, n: string, exp: int)
    requires Laid(json, u, r, n) && NoQuote(u) && NoQuote(r)
    requires forall i :: 0 <= i < |n| ==> IsAsciiDigit(n[i]) || n[i] == '-'
    requires LongValue(n) == Some(exp)
    ensures ExpClaim(json) == Some(exp)
  {
    ExpDigits(json, u, r, n);
    ExpClaimFromDigits(json, IndexOf(json, EXP_KEY, 0) + |EXP_KEY|, n, exp);
  }

  /** Once the digits are located, `parseLong` reads them back. */
  lemma ExpClaimFromDigits(json: string, start: nat, n: string, exp: int)
    requires IndexOfChar(json, ',', start) == -1
    requires IndexOfChar(json, '}', start) == start + |n|
    requires json[start..start + |n|] == n
    requires LongValue(n) == Some(exp)
    ensures ExpClaimFrom(json, start) == Some(exp)
  {
  }

  /** `Long.toString` then `trim` then `Long.parseLong` gives the number back. */
  lemma ParsesBack(exp: int)
    requires LONG_MIN <= exp <= LONG_MAX
    ensures LongValue(IntToString(exp)) == Some(exp)
  {
    IntToStringChars(exp);
    TrimIdentity(IntToString(exp));
    ParseLongOfIntToString(exp);
  }

  /** The text `validateToken` hands to `parseLong` is the expiry digits. */
  lemma ExpDigits(json: string, u: string, r: string, n: string)
    requires Laid(json, u, r, n) && NoQuote(u) && NoQuote(r)
    requires forall i :: 0 <= i < |n| ==> IsAsciiDigit(n[i]) || n[i] == '-'
    ensures var start := IndexOf(json, EXP_KEY, 0) + |EXP_KEY|;
            && IndexOfChar(json, ',', start) == -1
            && IndexOfChar(json, '}', start) == start + |n|
            && json[start..start + |n|] == n
  {
    ExpKeyFirst(json, u, r, n);
    DigitsToEnd(json, 26 + |u| + |r|, n);
  }

  /** Digits running up to a final '}' are read up to that brace. */
  lemma DigitsToEnd(json: string, start: nat, n: string)
    requires |json| == start + |n| + 1 && json[start + |n|] == '}'
    requires forall k :: 0 <= k < |n| ==> json[start + k] == n[k]
    requires forall i :: 0 <= i < |n| ==> IsAsciiDigit(n[i]) || n[i] == '-'
    ensures IndexOfChar(json, ',', start) == -1
    ensures IndexOfChar(json, '}', start) == start + |n|
    ensures json[start..start + |n|] == n
  {
    forall j | start <= j < |json| ensures json[j] != ',' {
      if j < start + |n| {
        assert json[start + (j - start)] == n[j - start];
      }
    }
    forall j | start <= j < start + |n| ensures json[j] != '}' {
      assert json[start + (j - start)] == n[j - start];
    }
    IndexOfCharNone(json, ',', start);
    IndexOfCharFirst(json, '}', start, start + |n|);
    assert json[start..start + |n|] == n;
  }

  // ---------------------------------------------------------------------
  // Round trips
  // ---------------------------------------------------------------------

  /** The payload a generated token carries. */
  lemma PayloadOfGenerated(username: string, role: string, nowMs: int, codec: Codec, sign: Sign)
    requires IsUrlCodec(codec) && IsSigner(sign)
    ensures PayloadOf(GenerateToken(username, role, nowMs, codec, sign), codec)
            == Some(PayloadJson(username, role, nowMs + VALIDITY_MS))
  {
    TokenHasThreeSegments(username, role, nowMs, codec, sign);
  }

  /** `getUsername` gives back a quote-free name. */
  lemma UsernameRoundTrip(username: string, role: string, nowMs: int, codec: Codec, sign: Sign)
    requires IsUrlCodec(codec) && IsSigner(sign) && NoQuote(username)
    ensures GetUsername(GenerateToken(username, role, nowMs, codec, sign), codec) == Some(username)
  {
    var json := PayloadJson(username, role, nowMs + VALIDITY_MS);
    PayloadOfGenerated(username, role, nowMs, codec, sign);
    Layout(username, role, nowMs + VALIDITY_MS);
    SubKeyFirst(json, username, role, IntToString(nowMs + VALIDITY_MS));
    UpToQuoteIs(json, 8, username);
  }

  /** `getRole` gives back a quote-free role when the name is quote-free too. */
  lemma RoleRoundTrip(username: string, role: string, nowMs: int, codec: Codec, sign: Sign)
    requires IsUrlCodec(codec) && IsSigner(sign) && NoQuote(username) && NoQuote(role)
    ensures GetRole(GenerateToken(username, role, nowMs, codec, sign), codec) == role
  {
    var json := PayloadJson(username, role, nowMs + VALIDITY_MS);
    PayloadOfGenerated(username, role, nowMs, codec, sign);
    Layout(username, role, nowMs + VALIDITY_MS);
    RoleOfLaid(json, username, role, IntToString(nowMs + VALIDITY_MS));
  }

  /** The role claim of any text laid out like the payload. */
  lemma RoleOfLaid(json: string, u: string, r: string, n: string)
    requires Laid(json, u, r, n) && NoQuote(u) && NoQuote(r)
    ensures RoleClaim(json) == r
  {
    RoleKeyFirst(json, u, r, n);
    assert MatchAt(json, ROLE_KEY, 10 + |u|);
    assert json[18 + |u| + |r| + 0] == EXP_OPEN[0];
    UpToQuoteIs(json, 18 + |u|, r);
  }

  /** A freshly generated token with a quote-free name and role validates
      exactly while its hour has not run out. */
  lemma FreshTokenValid(username: string, role: string, nowMs: int, laterMs: int, codec: Codec, sign: Sign)
    requires IsUrlCodec(codec) && IsSigner(sign) && NoQuote(username) && NoQuote(role)
    requires LONG_MIN <= nowMs + VALIDITY_MS <= LONG_MAX
    ensures ValidateToken(GenerateToken(username, role, nowMs, codec, sign), codec, sign, laterMs)
            <==> laterMs < nowMs + VALIDITY_MS
  {
    TokenHasThreeSegments(username, role, nowMs, codec, sign);
    ExpClaimOfPayload(username, role, nowMs + VALIDITY_MS);
  }

  /** A token whose payload segment was changed no longer validates, unless
      the signer happens to agree on the two signed texts. */
  lemma TamperedPayloadRejected(username: string, role: string, nowMs: int, laterMs: int, codec: Codec, sign: Sign,
                                forged: string)
    requires IsUrlCodec(codec) && IsSigner(sign)
    requires var h := codec.encode(HEADER_JSON);
             var p := codec.encode(PayloadJson(username, role, nowMs + VALIDITY_MS));
             sign(h + DOT + codec.encode(forged)) != sign(h + DOT + p)
    ensures var h := codec.encode(HEADER_JSON);
            var p := codec.encode(PayloadJson(username, role, nowMs + VALIDITY_MS));
            !ValidateToken(h + DOT + codec.encode(forged) + DOT + sign(h + DOT + p), codec, sign, laterMs)
  {
    var h := codec.encode(HEADER_JSON);
    var f := codec.encode(forged);
    var s := sign(h + DOT + codec.encode(PayloadJson(username, role, nowMs + VALIDITY_MS)));
    var parts := [h, f, s];
    var t := h + DOT + f + DOT + s;
    assert Join(parts[2..], DOT) == s;
    assert Join(parts[1..], DOT) == f + DOT + s;
    assert Join(parts, DOT) == t;
    SingleCharBorderFree('.');
    SplitJoin(parts, DOT);
    assert t != [] by { assert t[|h|] == '.'; }
    assert DropTrailingEmpty(parts) == parts;
  }

  // ---------------------------------------------------------------------
  // The unescaped format, and a generator that refuses what breaks it
  // ---------------------------------------------------------------------

  /** A name that closes its own string and adds a role claim of its own. */
  const INJECTED_NAME := "x\",\"role\":\"ADMIN"

  /** The start of the payload the injected name produces. */
  const INJECTED_PREFIX := "{\"sub\":\"x\",\"role\":\"ADMIN\""

  /** As written: a name with quotes takes over the role that `getRole`
      reads back, whatever role the token was issued with. */
  lemma InjectedNameSetsRole(role: string, nowMs: int, codec: Codec, sign: Sign)
    requires IsUrlCodec(codec) && IsSigner(sign)
    ensures GetRole(GenerateToken(INJECTED_NAME, role, nowMs, codec, sign), codec) == "ADMIN"
  {
    var json := PayloadJson(INJECTED_NAME, role, nowMs + VALIDITY_MS);
    PayloadOfGenerated(INJECTED_NAME, role, nowMs, codec, sign);
    PayloadHead(INJECTED_NAME, role, nowMs + VALIDITY_MS);
    InjectedHead();
    PrefixOfPrefix(json, SUB_OPEN + INJECTED_NAME + ROLE_OPEN, INJECTED_PREFIX);
    InjectedRoleClaim(json);
  }

  /** The head the injected name produces begins with the injected prefix. */
  lemma InjectedHead()
    ensures var head := SUB_OPEN + INJECTED_NAME + ROLE_OPEN;
            |INJECTED_PREFIX| <= |head| && head[..|INJECTED_PREFIX|] == INJECTED_PREFIX
  {
  }

  lemma PrefixOfPrefix(s: string, head: string, p: string)
    requires |head| <= |s| && s[..|head|] == head
    requires |p| <= |head| && head[..|p|] == p
    ensures |p| <= |s| && s[..|p|] == p
  {
    assert s[..|p|] == s[..|head|][..|p|];
  }

  /** The payload starts with everything up to the role. */
  lemma PayloadHead(u: string, r: string, exp: int)
    ensures var head := SUB_OPEN + u + ROLE_OPEN;
            |head| <= |PayloadJson(u, r, exp)| && PayloadJson(u, r, exp)[..|head|] == head
  {
    var head := SUB_OPEN + u + ROLE_OPEN;
    assert PayloadJson(u, r, exp) == head + (r + EXP_OPEN + IntToString(exp) + CLOSE);
  }

  /** Any payload that starts like the injected one yields the role "ADMIN". */
  lemma InjectedRoleClaim(json: string)
    requires |INJECTED_PREFIX| <= |json| && json[..|INJECTED_PREFIX|] == INJECTED_PREFIX
    ensures RoleClaim(json) == "ADMIN"
  {
    var p := INJECTED_PREFIX;
    assert forall j :: 0 <= j < |p| ==> json[j] == p[j] by {
      forall j | 0 <= j < |p| ensures json[j] == p[j] {
        assert json[..|p|][j] == json[j];
      }
    }
    InjectedPrefixRoleKey();
    forall j | 0 <= j <= 11 ensures MatchAt(json, ROLE_KEY, j) <==> MatchAt(p, ROLE_KEY, j) {
      MatchInPrefix(json, p, ROLE_KEY, j);
    }
    assert IndexOf(json, ROLE_KEY, 0) == 11;
    UpToQuoteIs(json, 19, "ADMIN");
  }

  /** A match inside a prefix is a match in the whole text. */
  lemma MatchInPrefix(s: string, p: string, key: string, j: int)
    requires |p| <= |s| && s[..|p|] == p
    requires 0 <= j && j + |key| <= |p|
    ensures MatchAt(s, key, j) <==> MatchAt(p, key, j)
  {
    var a, b := s[j..j + |key|], p[j..j + |key|];
    forall k | 0 <= k < |key| ensures a[k] == b[k] {
      assert s[..|p|][j + k] == s[j + k];
    }
    assert a == b;
  }

  /** In the injected prefix the role key first appears at offset 11. */
  lemma InjectedPrefixRoleKey()
    ensures forall j :: 0 <= j < 11 ==> !MatchAt(INJECTED_PREFIX, ROLE_KEY, j)
    ensures MatchAt(INJECTED_PREFIX, ROLE_KEY, 11)
  {
    assert INJECTED_PREFIX[11..19] == ROLE_KEY;
    var p := INJECTED_PREFIX;
    assert ROLE_KEY[0] == QUOTE && ROLE_KEY[1] == 'r';
    assert p[0] == '{' && p[2] == 's' && p[3] == 'u' && p[4] == 'b';
    assert p[6] == ':' && p[8] == 'x' && p[10] == ',';
    forall j | 0 <= j < 11 ensures !MatchAt(p, ROLE_KEY, j) {
      if j == 1 || j == 5 || j == 7 || j == 9 {
        NoMatchAt(p, ROLE_KEY, j, 1);
      } else {
        NoMatchAt(p, ROLE_KEY, j, 0);
      }
    }
  }

  /** Text the format can carry safely: no quote and no backslash. */
  predicate JsonSafe(s: string) {
    forall i :: 0 <= i < |s| ==> s[i] != QUOTE && s[i] != '\\'
  }

  /** `generateToken` as intended: a name or role that would break out of
      its JSON string is refused. */
  function GenerateTokenSafely(username: string, role: string, nowMs: int, codec: Codec, sign: Sign): (r: Result<string>)
    ensures r.Err? <==> !JsonSafe(username) || !JsonSafe(role)
    ensures r.Err? ==> r.failure == IllegalArgument
    ensures r.Ok? ==> r.value == GenerateToken(username, role, nowMs, codec, sign)
  {
    if !JsonSafe(username) || !JsonSafe(role) then Err(IllegalArgument)
    else Ok(GenerateToken(username, role, nowMs, codec, sign))
  }

  /** Every token the careful generator issues reads back as issued: its
      name, its role, and validity for exactly one hour. */
  lemma SafeTokenReadsBack(username: string, role: string, nowMs: int, laterMs: int, codec: Codec, sign: Sign)
    requires IsUrlCodec(codec) && IsSigner(sign)
    requires LONG_MIN <= nowMs + VALIDITY_MS <= LONG_MAX
    requires GenerateTokenSafely(username, role, nowMs, codec, sign).Ok?
    ensures var t := GenerateTokenSafely(username, role, nowMs, codec, sign).value;
            && GetUsername(t, codec) == Some(username)
            && GetRole(t, codec) == role
            && (ValidateToken(t, codec, sign, laterMs) <==> laterMs < nowMs + VALIDITY_MS)
  {
    UsernameRoundTrip(username, role, nowMs, codec, sign);
    RoleRoundTrip(username, role, nowMs, codec, sign);
    FreshTokenValid(username, role, nowMs, laterMs, codec, sign);
  }

  // ---------------------------------------------------------------------
  // JwtService.extractRole
  // ---------------------------------------------------------------------

  const ADMIN_CLAIM := "\"role\":\"ADMIN\""
  const ROLE_ADMIN_CLAIM := "\"role\":\"ROLE_ADMIN\""

  /** `extractRole`: "ROLE_ADMIN" when the payload holds the exact claim
      `"role":"ADMIN"` or `"role":"ROLE_ADMIN"`, "ROLE_USER" otherwise and on
      any failure. */
  function ExtractRole(token: string, codec: Codec): (r: string)
    ensures r == ROLE_ADMIN || r == ROLE_USER
    ensures r == ROLE_ADMIN <==>
              PayloadOf(token, codec).Some?
              && (Contains(PayloadOf(token, codec).value, ADMIN_CLAIM)
                  || Contains(PayloadOf(token, codec).value, ROLE_ADMIN_CLAIM))
  {
    var payload := PayloadOf(token, codec);
    if payload.None? then ROLE_USER
    else if Contains(payload.value, ADMIN_CLAIM) then ROLE_ADMIN
    else if Contains(payload.value, ROLE_ADMIN_CLAIM) then ROLE_ADMIN
    else ROLE_USER
  }

  /** A role that merely contains "ADMIN" is not taken for one. */
  lemma SuperAdminIsUser(token: string, codec: Codec)
    requires PayloadOf(token, codec) == Some(SUPER_ADMIN_PAYLOAD)
    ensures ExtractRole(token, codec) == ROLE_USER
  {
    NoAdminClaim();
    NoRoleAdminClaim();
  }

  const SUPER_ADMIN_PAYLOAD := "{\"role\":\"SUPERADMIN\"}"

  /** The claim `"role":"ADMIN"` fits only at the first eight offsets, and
      differs at each. */
  lemma NoAdminClaim()
    ensures !Contains(SUPER_ADMIN_PAYLOAD, ADMIN_CLAIM)
  {
    var json := SUPER_ADMIN_PAYLOAD;
    assert ADMIN_CLAIM[0] == QUOTE && ADMIN_CLAIM[1] == 'r' && ADMIN_CLAIM[8] == 'A';
    assert json[0] == '{' && json[2] == 'r' && json[3] == 'o' && json[4] == 'l' && json[5] == 'e';
    assert json[7] == ':' && json[9] == 'S';
    forall j | 0 <= j <= |json| ensures !MatchAt(json, ADMIN_CLAIM, j) {
      if j == 1 {
        NoMatchAt(json, ADMIN_CLAIM, j, 8);
      } else if j == 6 {
        NoMatchAt(json, ADMIN_CLAIM, j, 1);
      } else if j == 0 || j == 2 || j == 3 || j == 4 || j == 5 || j == 7 {
        NoMatchAt(json, ADMIN_CLAIM, j, 0);
      }
    }
  }

  /** The claim `"role":"ROLE_ADMIN"` fits only at the first three offsets,
      and differs at each. */
  lemma NoRoleAdminClaim()
    ensures !Contains(SUPER_ADMIN_PAYLOAD, ROLE_ADMIN_CLAIM)
  {
    var json := SUPER_ADMIN_PAYLOAD;
    assert ROLE_ADMIN_CLAIM[0] == QUOTE && ROLE_ADMIN_CLAIM[8] == 'R';
    assert json[0] == '{' && json[2] == 'r' && json[9] == 'S';
    forall j | 0 <= j <= |json| ensures !MatchAt(json, ROLE_ADMIN_CLAIM, j) {
      if j == 1 {
        NoMatchAt(json, ROLE_ADMIN_CLAIM, j, 8);
      } else if j == 0 || j == 2 {
        NoMatchAt(json, ROLE_ADMIN_CLAIM, j, 0);
      }
    }
  }

  // ---------------------------------------------------------------------
  // JwtAuthFilter
  // ---------------------------------------------------------------------

  const BEARER := "Bearer "
  const OPEN_PREFIXES := ["/auth/", "/api/auth/", "/api/notifications/subscribe/"]

  /** `shouldNotFilter`: preflight requests, in any letter case, and the
      three open path prefixes skip the filter. */
  predicate ShouldNotFilter(httpMethod: string, path: string) {
    EqualsIgnoreCase("OPTIONS", Some(httpMethod))
    || StartsWith(path, OPEN_PREFIXES[0]) || StartsWith(path, OPEN_PREFIXES[1]) || StartsWith(path, OPEN_PREFIXES[2])
  }

  /** Every path under an open prefix skips the filter, whatever the method. */
  lemma OpenPathsSkipFilter(httpMethod: string, i: nat, rest: string)
    requires i < |OPEN_PREFIXES|
    ensures ShouldNotFilter(httpMethod, OPEN_PREFIXES[i] + rest)
  {
    var p := OPEN_PREFIXES[i] + rest;
    assert p[..|OPEN_PREFIXES[i]|] == OPEN_PREFIXES[i];
  }

  /** A preflight is recognised in any letter case, and a path that only
      resembles an open prefix is still filtered. */
  lemma PreflightAndLookalikes()
    ensures ShouldNotFilter("options", "/api/admin/users")
    ensures !ShouldNotFilter("GET", "/api/auth")
  {
    OptionsAnyCase();
    AuthLookalike();
    assert |ToUpper("GET")| != |ToUpper("OPTIONS")|;
  }

  lemma OptionsAnyCase()
    ensures EqualsIgnoreCase("OPTIONS", Some("options"))
  {
    var a, b := ToUpper("options"), ToUpper("OPTIONS");
    assert a[0] == 'O' == b[0];
    assert a[1] == 'P' == b[1];
    assert a[2] == 'T' == b[2];
    assert a[3] == 'I' == b[3];
    assert a[4] == 'O' == b[4];
    assert a[5] == 'N' == b[5];
    assert a[6] == 'S' == b[6];
  }

  lemma AuthLookalike()
    ensures !StartsWith("/api/auth", OPEN_PREFIXES[0])
    ensures !StartsWith("/api/auth", OPEN_PREFIXES[1])
    ensures !StartsWith("/api/auth", OPEN_PREFIXES[2])
  {
    assert "/api/auth"[..6][2] == 'p';
    assert OPEN_PREFIXES[0][2] == 'u';
  }

  /** The token of an `Authorization: Bearer <token>` header; `None` when
      the header is missing or has another scheme. */
  function BearerToken(header: Option<string>): (r: Option<string>)
    ensures r.Some? <==> header.Some? && StartsWith(header.value, BEARER)
    ensures r.Some? ==> header.value == BEARER + r.value
  {
    if header.None? || !StartsWith(header.value, BEARER) then None
    else
      assert header.value == header.value[..7] + header.value[7..];
      Some(header.value[7..])
  }

  /** Whatever follows "Bearer " is the token. */
  lemma BearerTokenRoundTrip(token: string)
    ensures BearerToken(Some(BEARER + token)) == Some(token)
  {
    assert (BEARER + token)[..7] == BEARER;
  }

  /** The granted authority: a null or blank role counts as "USER", and
      "ROLE_" is put in front unless already there. */
  function Authority(role: Option<string>): (a: string)
    ensures StartsWith(a, AUTHORITY_PREFIX)
    ensures role.Some? && StartsWith(role.value, AUTHORITY_PREFIX) ==> a == role.value
    ensures role.None? || IsBlank(role.value) ==> a == ROLE_USER
    ensures role.Some? && !IsBlank(role.value) && !StartsWith(role.value, AUTHORITY_PREFIX) ==>
              a == AUTHORITY_PREFIX + role.value
  {
    assert role.Some? && StartsWith(role.value, AUTHORITY_PREFIX) ==> !IsTrimmed(role.value[0]);
    var r := if role.None? || IsBlank(role.value) then FALLBACK_ROLE else role.value;
    if StartsWith(r, AUTHORITY_PREFIX) then r
    else
      assert (AUTHORITY_PREFIX + r)[..5] == AUTHORITY_PREFIX;
      AUTHORITY_PREFIX + r
  }

  /** Prefixing is done once: an authority maps to itself. */
  lemma AuthorityIdempotent(role: Option<string>)
    ensures Authority(Some(Authority(role))) == Authority(role)
  {
  }

  /** The role `extractRole` reports passes through unchanged. */
  lemma ExtractedRoleIsAuthority(token: string, codec: Codec)
    ensures Authority(Some(ExtractRole(token, codec))) == ExtractRole(token, codec)
  {
    var r := ExtractRole(token, codec);
    assert r[..5] == AUTHORITY_PREFIX;
  }

  /** The authentication held for the rest of the request. */
  datatype Principal = Principal(email: string, authority: string)

  /** What the signed-token library would say about a token:
      `extractEmail` (`Err` where it throws, `None` for a null subject) and
      `isTokenValid`. */
  datatype Verifier = Verifier(subject: string -> Result<Option<string>>, valid: string -> bool)

  /** `doFilterInternal`: the authentication left in the security context
      after the filter, given the one already there. */
  function FilterRequest(current: Option<Principal>, header: Option<string>, verifier: Verifier,
                         codec: Codec): (r: Option<Principal>)
    ensures BearerToken(header).None? ==> r == current
    ensures BearerToken(header).Some? && verifier.subject(BearerToken(header).value).Err? ==> r.None?
    ensures current.Some? ==> r == current || r.None?
    ensures r.Some? && r != current ==>
              var token := BearerToken(header).value;
              && current.None?
              && verifier.valid(token)
              && verifier.subject(token) == Ok(Some(r.value.email))
              && r.value.authority == ExtractRole(token, codec)
  {
    match BearerToken(header)
    case None => current
    case Some(token) =>
      match verifier.subject(token)
      case Err(_) => None
      case Ok(email) =>
        if email.None? || current.Some? then current
        else if !verifier.valid(token) then current
        else
          ExtractedRoleIsAuthority(token, codec);
          Some(Principal(email.value, Authority(Some(ExtractRole(token, codec)))))
  }

  /** A bearer token that the library accepts authenticates an anonymous
      request, as its subject, with "ROLE_ADMIN" or "ROLE_USER". */
  lemma AcceptedTokenAuthenticates(token: string, email: string, verifier: Verifier, codec: Codec)
    requires verifier.subject(token) == Ok(Some(email)) && verifier.valid(token)
    ensures var r := FilterRequest(None, Some(BEARER + token), verifier, codec);
            && r.Some? && r.value.email == email
            && (r.value.authority == ROLE_ADMIN || r.value.authority == ROLE_USER)
  {
    BearerTokenRoundTrip(token);
  }

  /** An authentication already in place is never replaced; it is only
      cleared when the subject cannot be read. */
  lemma ExistingAuthenticationKept(current: Principal, header: Option<string>, verifier: Verifier, codec: Codec)
    ensures var r := FilterRequest(Some(current), header, verifier, codec);
            r == Some(current)
            <==> BearerToken(header).None? || verifier.subject(BearerToken(header).value).Ok?
  {
  }
}
