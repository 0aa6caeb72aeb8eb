/** Paste locators (`createPasteUrl` and `parsePasteUrl` in src/lib/crypto.ts).
    A share URL is `origin/id#key`; the parser accepts a hash of the form
    `#id#key`, or a legacy hash holding base64 of the text `id:key`. */
module Locator {
  import opened Common
  import Base64
  import Keys

  /** The parser's result: both parts, or the `{ id: null, key: null }` pair. */
  datatype Parsed = Located(id: string, key: string) | NoLocator

  /** The exception `atob` throws on text that is not base64. */
  datatype ParseError = InvalidCharacter

  /** `createPasteUrl(id, key)`; `origin` is `window.location.origin`, or `None`
      outside a browser. */
  function CreatePasteUrl(origin: Option<string>, id: string, key: string): (url: string)
    ensures origin.None? ==> url == ""
    ensures origin.Some? ==> url == origin.value + "/" + id + "#" + key
  {
    match origin
    case None => ""
    case Some(o) => o + "/" + id + "#" + key
  }

  /** Glues parts back together with `sep` between neighbours. */
  function Join(parts: seq<string>, sep: char): string
    requires |parts| >= 1
    decreases |parts|
  {
    if |parts| == 1 then parts[0] else parts[0] + [sep] + Join(parts[1..], sep)
  }

  /** `String.prototype.split` with a one-character separator: the maximal
      separator-free runs, in order, empty ones included. */
  function Split(s: string, sep: char): (parts: seq<string>)
    ensures |parts| >= 1
    ensures forall i :: 0 <= i < |parts| ==> Free(parts[i], sep)
    ensures Join(parts, sep) == s
    decreases |s|
  {
    if |s| == 0 then [""]
    else
      var rest := Split(s[1..], sep);
      if s[0] == sep then [""] + rest
      else [[s[0]] + rest[0]] + rest[1..]
  }

  /** Text without the separator is one part. */
  lemma {:induction false} SplitFree(s: string, sep: char)
    requires Free(s, sep)
    ensures Split(s, sep) == [s]
    decreases |s|
  {
    if |s| > 0 {
      SplitFree(s[1..], sep);
      assert [s[0]] + s[1..] == s;
    }
  }

  /** A separator-free prefix followed by the separator becomes the first part. */
  lemma {:induction false} SplitAfterPrefix(a: string, sep: char, rest: string)
    requires Free(a, sep)
    ensures Split(a + [sep] + rest, sep) == [a] + Split(rest, sep)
    decreases |a|
  {
    if |a| == 0 {
      assert a + [sep] + rest == [sep] + rest;
      assert ([sep] + rest)[1..] == rest;
    } else {
      SplitAfterPrefix(a[1..], sep, rest);
      assert (a + [sep] + rest)[1..] == a[1..] + [sep] + rest;
      assert [a[0]] + a[1..] == a;
    }
  }

  /** Splitting inverts joining separator-free parts. */
  lemma {:induction false} SplitJoin(parts: seq<string>, sep: char)
    requires |parts| >= 1
    requires forall i :: 0 <= i < |parts| ==> Free(parts[i], sep)
    ensures Split(Join(parts, sep), sep) == parts
    decreases |parts|
  {
    if |parts| == 1 {
      SplitFree(parts[0], sep);
    } else {
      SplitJoin(parts[1..], sep);
      SplitAfterPrefix(parts[0], sep, Join(parts[1..], sep));
      assert [parts[0]] + parts[1..] == parts;
    }
  }

  /** The characters JavaScript's `.` does not match. */
  predicate IsLineTerminator(c: char)
  {
    c == '\n' || c == '\r' || c as int == 0x2028 || c as int == 0x2029
  }

  predicate NoLineTerminator(s: string)
  {
    forall i :: 0 <= i < |s| ==> !IsLineTerminator(s[i])
  }

  /** The largest colon position in `[1, hi)`, or 0 when there is none. */
  function LastColon(s: string, hi: nat): (p: nat)
    requires hi <= |s|
    ensures p == 0 || (1 <= p < hi && s[p] == ':')
    ensures forall q :: p < q < hi && 1 <= q ==> s[q] != ':'
    decreases hi
  {
    if hi <= 1 then 0
    else if s[hi - 1] == ':' then hi - 1
    else LastColon(s, hi - 1)
  }

  /** The regular expression `^(.+):(.+)$` without flags: the whole text must be
      free of line terminators, and the greedy first group ends at the last
      colon that still leaves one character for the second group. */
  function MatchIdKey(s: string): (r: Option<(string, string)>)
    ensures r.Some? ==> s == r.value.0 + ":" + r.value.1
    ensures r.Some? ==> r.value.0 != "" && r.value.1 != "" && NoLineTerminator(s)
    ensures r.Some? ==> forall j :: 0 <= j < |r.value.1| - 1 ==> r.value.1[j] != ':'
    ensures r.None? ==> !NoLineTerminator(s) || forall p :: 1 <= p <= |s| - 2 ==> s[p] != ':'
  {
    if !NoLineTerminator(s) || |s| < 3 then None
    else
      var p := LastColon(s, |s| - 1);
      if p == 0 then None
      else
        assert s == s[..p] + ":" + s[p + 1..];
        Some((s[..p], s[p + 1..]))
  }

  /** The "binary string" `atob` returns: one character per byte. */
  function Latin1(bytes: seq<byte>): (s: string)
    ensures |s| == |bytes|
    ensures forall i :: 0 <= i < |s| ==> s[i] as int == bytes[i]
  {
    seq(|bytes|, i requires 0 <= i < |bytes| => bytes[i] as char)
  }

  predicate IsLatin1(s: string)
  {
    forall i :: 0 <= i < |s| ==> s[i] as int < 256
  }

  /** The bytes whose binary string is `s`. */
  function Latin1Bytes(s: string): (bytes: seq<byte>)
    requires IsLatin1(s)
    ensures Latin1(bytes) == s
  {
    seq(|s|, i requires 0 <= i < |s| => s[i] as int)
  }

  /** `parsePasteUrl(hash)`; `Err` is the exception `atob` lets escape. */
  function ParsePasteUrl(hash: string): (r: Result<Parsed, ParseError>)
    ensures hash == "" || hash[0] != '#' ==> r == Ok(NoLocator)
    ensures r.Err? ==> hash != "" && Base64.Decode(hash[1..]).None?
    ensures r.Ok? && r.value.Located? ==>
              || (hash == "#" + r.value.id + "#" + r.value.key
                  && Free(r.value.id, '#') && Free(r.value.key, '#'))
              || (Base64.Decode(hash[1..]).Some?
                  && Latin1(Base64.Decode(hash[1..]).value) == r.value.id + ":" + r.value.key
                  && r.value.id != "" && r.value.key != "")
    ensures hash != "" && hash[0] == '#' && |Split(hash[1..], '#')| == 2 ==>
              r == Ok(Located(Split(hash[1..], '#')[0], Split(hash[1..], '#')[1]))
    ensures hash != "" && hash[0] == '#' && |Split(hash[1..], '#')| != 2 ==>
              && (r.Err? <==> Base64.Decode(hash[1..]).None?)
              && (Base64.Decode(hash[1..]).Some? ==>
                    r == Ok(match MatchIdKey(Latin1(Base64.Decode(hash[1..]).value))
                            case Some(pair) => Located(pair.0, pair.1)
                            case None => NoLocator))
  {
    if hash == "" || hash[0] != '#' then Ok(NoLocator)
    else
      var rest := hash[1..];
      var parts := Split(rest, '#');
      if |parts| == 2 then
        assert Join(parts[1..], '#') == parts[1];
        assert hash == "#" + parts[0] + "#" + parts[1];
        Ok(Located(parts[0], parts[1]))
      else
        match Base64.Decode(rest)
        case None => Err(InvalidCharacter)
        case Some(bytes) =>
          match MatchIdKey(Latin1(bytes))
          case Some((id, key)) => Ok(Located(id, key))
          case None => Ok(NoLocator)
  }

  /** The direct form `#id#key` parses to its two parts, empty ones included. */
  lemma ParseDirect(id: string, key: string)
    requires Free(id, '#') && Free(key, '#')
    ensures ParsePasteUrl("#" + id + "#" + key) == Ok(Located(id, key))
  {
    var hash := "#" + id + "#" + key;
    assert hash[1..] == Join([id, key], '#');
    SplitJoin([id, key], '#');
  }

  /** The pattern splits `id:key` back into its parts when the key holds no colon. */
  lemma MatchJoined(id: string, key: string)
    requires id != "" && key != ""
    requires NoLineTerminator(id) && NoLineTerminator(key) && Free(key, ':')
    ensures MatchIdKey(id + ":" + key) == Some((id, key))
  {
    var text := id + ":" + key;
    assert NoLineTerminator(text) by {
      forall i | 0 <= i < |text| ensures !IsLineTerminator(text[i]) {
        if i > |id| {
          assert text[i] == key[i - |id| - 1];
        }
      }
    }
    assert text[|id|] == ':';
    forall q | |id| < q < |text| - 1 ensures text[q] != ':' {
      assert text[q] == key[q - |id| - 1];
    }
    assert LastColon(text, |text| - 1) == |id|;
    assert text[..|id|] == id && text[|id| + 1..] == key;
  }

  /** The legacy form, base64 of `id:key`, parses to its two parts when the key
      holds no colon and neither part is empty or breaks a line. */
  lemma ParseLegacy(id: string, key: string)
    requires id != "" && key != ""
    requires IsLatin1(id) && IsLatin1(key)
    requires NoLineTerminator(id) && NoLineTerminator(key) && Free(key, ':')
    ensures ParsePasteUrl("#" + Base64.Encode(Latin1Bytes(id + ":" + key))) == Ok(Located(id, key))
  {
    var text := id + ":" + key;
    assert IsLatin1(text) by {
      forall i | 0 <= i < |text| ensures text[i] as int < 256 {
        if i > |id| {
          assert text[i] == key[i - |id| - 1];
        }
      }
    }
    var bytes := Latin1Bytes(text);
    var encoded := Base64.Encode(bytes);
    var hash := "#" + encoded;
    assert hash[1..] == encoded;
    assert Free(encoded, '#');
    SplitFree(encoded, '#');
    Base64.DecodeEncode(bytes);
    MatchJoined(id, key);
  }

  /** A share URL splits at its only `#` into the path and the key: the
      fragment the browser keeps is exactly the key. */
  lemma UrlFragmentIsKey(origin: string, id: string, key: string)
    requires Free(origin, '#') && Free(id, '#') && Free(key, '#')
    ensures Split(CreatePasteUrl(Some(origin), id, key), '#') == [origin + "/" + id, key]
  {
    var path := origin + "/" + id;
    assert Free(path, '#');
    assert CreatePasteUrl(Some(origin), id, key) == Join([path, key], '#');
    SplitJoin([path, key], '#');
  }

  /** The fragment of a share URL, `#key`, is not in either form the parser
      reads: when the key holds `-` or `_` the legacy branch throws. */
  lemma SharedFragmentThrows(random: seq<byte>)
    requires exists i :: 0 <= i < |Keys.GenerateKey(random)| && Keys.GenerateKey(random)[i] in "-_"
    ensures ParsePasteUrl("#" + Keys.GenerateKey(random)).Err?
  {
    var key := Keys.GenerateKey(random);
    var i :| 0 <= i < |key| && key[i] in "-_";
    FragmentThrows(key, i);
  }

  /** A fragment of key symbols with a `-` or `_` is neither form. */
  lemma FragmentThrows(key: string, i: nat)
    requires forall j :: 0 <= j < |key| ==> Keys.IsKeyChar(key[j])
    requires i < |key| && key[i] in "-_"
    ensures ParsePasteUrl("#" + key).Err?
  {
    var hash := "#" + key;
    assert hash[1..] == key;
    SplitFree(key, '#');
    Base64.DecodeRejectsForeign(key, i);
  }
}
