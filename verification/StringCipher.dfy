/** The string layer of the cipher: each byte is printed in decimal and closed by a
    backslash; decryption splits, parses, decrypts and stops at the first NUL. */
module StringCipher {
  import opened Cipher
  import opened MachineInts
  import opened Sequences
  import opened Text

  /** The outcome of decoding the pieces of one encrypted line: strtoint rejects a piece
      that is no number and throws on an empty one. */
  datatype Decoding = Decoded(text: string) | Cracked | Threw

  const CRACKED: string := "THIS LINE IS CRACKED"

  predicate IsBytes(s: string) {
    forall i :: 0 <= i < |s| ==> s[i] as int < 256
  }

  function Codes(N: int, e: int, s: string): (r: seq<string>)
    requires N > 0
    ensures |r| == |s|
  {
    if s == "" then [] else [Decimal(ModExp(N, e, s[0] as int % 256))] + Codes(N, e, s[1..])
  }

  /** The encrypted text: every code is followed by a backslash. */
  function Cipherline(N: int, e: int, s: string): string
    requires N > 0
  {
    if s == "" then "" else Decimal(ModExp(N, e, s[0] as int % 256)) + "\\" + Cipherline(N, e, s[1..])
  }

  lemma {:induction false} CipherlineSnoc(N: int, e: int, s: string, c: char)
    requires N > 0
    ensures Cipherline(N, e, s + [c]) == Cipherline(N, e, s) + (Decimal(ModExp(N, e, c as int % 256)) + "\\")
  {
    var tail := Decimal(ModExp(N, e, c as int % 256)) + "\\";
    if s == "" {
      assert s + [c] == [c] && [c][1..] == "";
      assert tail + "" == tail && "" + tail == tail;
    } else {
      CipherlineSnoc(N, e, s[1..], c);
      assert (s + [c])[1..] == s[1..] + [c];
      Assoc(Decimal(ModExp(N, e, s[0] as int % 256)) + "\\", Cipherline(N, e, s[1..]), tail);
    }
  }

  method EncryptString(N: int, e: int, message: string) returns (res: string)
    requires 0 < N < TWO31
    ensures res == Cipherline(N, e, message)
  {
    res := "";
    for i := 0 to |message|
      invariant res == Cipherline(N, e, message[..i])
    {
      var c := Encrypt(N, e, message[i] as int % 256);
      CipherlineSnoc(N, e, message[..i], message[i]);
      assert message[..i + 1] == message[..i] + [message[i]];
      res := res + (Decimal(c) + "\\");
    }
    assert message[..|message|] == message;
  }

  function ByteChar(b: int): char
    requires 0 <= b < 256
  {
    b as char
  }

  function Prepend(w: string, r: Decoding): Decoding {
    if r.Decoded? then Decoded(w + r.text) else r
  }

  /** Decodes pieces from left to right up to the first that fails. */
  function DecodePieces(N: int, d: int, ps: seq<string>): Decoding
    requires N > 0
  {
    if ps == [] then Decoded("")
    else if ps[0] == "" then Threw
    else if !IntOf(ps[0]).0 then Cracked
    else Prepend([ByteChar(ModExp(N, d, IntOf(ps[0]).1) % 256)], DecodePieces(N, d, ps[1..]))
  }

  ghost predicate IsCode(p: string) {
    p != "" && IntOf(p).0
  }

  ghost predicate AllCodes(ps: seq<string>) {
    forall i :: 0 <= i < |ps| ==> IsCode(ps[i])
  }

  /** Every piece decrypts to one byte of the text. */
  ghost predicate Decrypts(N: int, d: int, ps: seq<string>, text: string)
    requires N > 0
  {
    |text| == |ps| && forall i :: 0 <= i < |ps| ==> CharOf(N, d, ps[i]) == text[i]
  }

  ghost function CharOf(N: int, d: int, p: string): char
    requires N > 0
  {
    (ModExp(N, d, IntOf(p).1) % 256) as char
  }

  ghost predicate FirstBad(ps: seq<string>, i: nat) {
    i < |ps| && !IsCode(ps[i]) && AllCodes(ps[..i])
  }

  lemma AllCodesCons(ps: seq<string>)
    requires ps != []
    ensures AllCodes(ps) <==> IsCode(ps[0]) && AllCodes(ps[1..])
  {
    hide IsCode;
    assert forall i :: 0 <= i < |ps[1..]| ==> ps[1..][i] == ps[i + 1];
    if IsCode(ps[0]) && AllCodes(ps[1..]) {
      forall i | 0 <= i < |ps|
        ensures IsCode(ps[i])
      {
        if i > 0 {
          assert IsCode(ps[1..][i - 1]);
        }
      }
    }
  }

  lemma FirstBadTail(ps: seq<string>, i: nat)
    requires i > 0 && FirstBad(ps, i)
    ensures IsCode(ps[0]) && FirstBad(ps[1..], i - 1)
  {
    hide IsCode, AllCodes;
    AllCodesCons(ps[..i]);
    assert ps[..i][1..] == ps[1..][..i - 1] && ps[..i][0] == ps[0];
  }

  /** Decoding succeeds exactly when every piece is a number, and then decrypts each to one
      byte; otherwise the first piece that is none decides: an empty one throws, any other
      is reported. */
  lemma {:induction false} DecodesExactly(N: int, d: int, ps: seq<string>)
    requires N > 0
    ensures DecodePieces(N, d, ps).Decoded? <==> AllCodes(ps)
    ensures DecodePieces(N, d, ps).Decoded? ==> Decrypts(N, d, ps, DecodePieces(N, d, ps).text)
    ensures forall i: nat :: i < |ps| && FirstBad(ps, i) ==> DecodePieces(N, d, ps) == if ps[i] == "" then Threw else Cracked
  {
    hide ModExp, IntOf, FirstBad;
    if ps != [] {
      var rest := ps[1..];
      DecodesExactly(N, d, rest);
      AllCodesCons(ps);
      assert forall i :: 0 <= i < |rest| ==> rest[i] == ps[i + 1];
      forall i: nat | i < |ps| && FirstBad(ps, i)
        ensures DecodePieces(N, d, ps) == if ps[i] == "" then Threw else Cracked
      {
        FirstBadAt(ps, i);
        if i > 0 {
          FirstBadTail(ps, i);
          FirstBadAt(rest, i - 1);
        }
      }
    }
  }

  lemma FirstBadAt(ps: seq<string>, i: nat)
    requires FirstBad(ps, i)
    ensures i < |ps| && !IsCode(ps[i])
  {
  }

  /** std::string built from a NUL-terminated buffer. */
  function CString(s: string): string {
    s[..IndexOf(s, '\0')]
  }

  function DecodeText(N: int, d: int, line: string): Decoding
    requires N > 0
  {
    var ps := SplitOf(line, '\\');
    if ps == [] then Decoded("") else
    var r := DecodePieces(N, d, ps[..|ps| - 1]);
    if r.Decoded? then Decoded(CString(r.text)) else r
  }

  /** The pieces before i have been decoded to w. */
  ghost predicate DecodedUpTo(N: int, d: int, ps: seq<string>, i: nat, w: string, result: Decoding)
    requires N > 0
  {
    i <= |ps| && result == Prepend(w, DecodePieces(N, d, ps[i..]))
  }

  lemma DecodeStep(N: int, d: int, ps: seq<string>, i: nat, w: string, result: Decoding)
    requires N > 0 && i < |ps| && DecodedUpTo(N, d, ps, i, w, result)
    ensures ps[i] == "" ==> result == Threw
    ensures ps[i] != "" && !IntOf(ps[i]).0 ==> result == Cracked
    ensures ps[i] != "" && IntOf(ps[i]).0 ==>
              DecodedUpTo(N, d, ps, i + 1, w + [ByteChar(ModExp(N, d, IntOf(ps[i]).1) % 256)], result)
  {
    var rest := DecodePieces(N, d, ps[i + 1..]);
    assert ps[i..][0] == ps[i] && ps[i..][1..] == ps[i + 1..];
    if rest.Decoded? {
      Assoc(w, [ByteChar(ModExp(N, d, IntOf(ps[i]).1) % 256)], rest.text);
    }
  }

  lemma DecodeEnds(N: int, d: int, ps: seq<string>, w: string, result: Decoding)
    requires N > 0
    ensures DecodedUpTo(N, d, ps, 0, "", DecodePieces(N, d, ps))
    ensures DecodedUpTo(N, d, ps, |ps|, w, result) ==> result == Decoded(w)
  {
    assert ps[0..] == ps && ps[|ps|..] == [];
    var all := DecodePieces(N, d, ps);
    if all.Decoded? {
      assert "" + all.text == all.text;
    }
    assert w + "" == w;
  }

  /** The decoding loop shared by decrypt_string and the snapshot reader: it fills the
      buffer, closes it with a NUL and reads it back as a C string. */
  method DecodeLine(N: int, d: int, line: string) returns (r: Decoding)
    requires 0 < N < TWO31 && line != ""
    ensures r == DecodeText(N, d, line)
  {
    hide *;
    var pieces := Split(line, '\\');
    var len := pieces.Length;
    ghost var ps := DecodeTextIs(N, d, line);
    ghost var result := DecodePieces(N, d, ps);
    var words := new char[len];
    var i := 0;
    assert words[..0] == "";
    DecodeEnds(N, d, ps, "", result);
    while i < len - 1
      invariant 0 <= i <= len - 1
      invariant pieces[..] == SplitOf(line, '\\')
      invariant DecodedUpTo(N, d, ps, i, words[..i], result)
    {
      DecodeStep(N, d, ps, i, words[..i], result);
      assert pieces[i] == pieces[..][i] == ps[i];
      if pieces[i] == "" {
        return Threw;
      }
      var ok, value := StrToInt(pieces[i]);
      if !ok {
        return Cracked;
      }
      var m := Decrypt(N, d, value);
      words[i] := ByteChar(m);
      PrefixGrows(words, i);
      i := i + 1;
    }
    DecodeEnds(N, d, ps, words[..len - 1], result);
    words[len - 1] := '\0';
    PrefixGrows(words, len - 1);
    CStringOfBuffer(words[..len - 1]);
    assert words[..] == words[..len];
    r := Decoded(CString(words[..]));
  }

  /** All pieces but the last, empty one are decoded, and the result is cut at a NUL. */
  lemma DecodeTextIs(N: int, d: int, line: string) returns (ps: seq<string>)
    requires N > 0 && line != ""
    ensures |SplitOf(line, '\\')| == |ps| + 1 && ps == SplitOf(line, '\\')[..|ps|]
    ensures var all := DecodePieces(N, d, ps);
            DecodeText(N, d, line) == if all.Decoded? then Decoded(CString(all.text)) else all
  {
    var pieces := SplitOf(line, '\\');
    ps := pieces[..|pieces| - 1];
  }

  lemma CStringOfBuffer(s: string)
    ensures CString(s + ['\0']) == CString(s) && s + "" == s
  {
    var i := IndexOf(s, '\0');
    if i == |s| {
      IndexOfFirst(s, ['\0'], '\0');
    } else {
      assert s + ['\0'] == s[..i] + (s[i..] + ['\0']);
      IndexOfFirst(s[..i], s[i..] + ['\0'], '\0');
    }
    assert (s + ['\0'])[..i] == s[..i];
  }

  method DecryptString(N: int, d: int, encrypted: string) returns (r: Decoding)
    requires 0 < N < TWO31 && encrypted != ""
    ensures var t := DecodeText(N, d, encrypted);
            r == if t.Cracked? then Decoded(CRACKED) else t
  {
    r := DecodeLine(N, d, encrypted);
    if r.Cracked? {
      r := Decoded(CRACKED);
    }
  }

  // ------------------------------------------------------------ round trip

  lemma CodeIsNumber(N: int, e: int, m: int)
    requires 0 < N < TWO31
    ensures var t := Decimal(ModExp(N, e, m));
            t != "" && '\\' !in t && IntOf(t) == (true, ModExp(N, e, m))
  {
    DigitsAreDigits(ModExp(N, e, m));
    PrintedIntReadsBack(ModExp(N, e, m));
  }

  lemma {:induction false} CipherlineSplits(N: int, e: int, s: string)
    requires 0 < N < TWO31
    ensures Pieces(Cipherline(N, e, s), '\\') == Codes(N, e, s) + [""]
  {
    if s == "" {
      assert Pieces("", '\\') == [""];
    } else {
      var t := Decimal(ModExp(N, e, s[0] as int % 256));
      CodeIsNumber(N, e, s[0] as int % 256);
      CipherlineSplits(N, e, s[1..]);
      PiecesFirst(t, Cipherline(N, e, s[1..]), '\\');
      assert t + "\\" + Cipherline(N, e, s[1..]) == t + ['\\'] + Cipherline(N, e, s[1..]);
      Assoc([t], Codes(N, e, s[1..]), [""]);
    }
  }

  lemma CodeDecodes(p: int, q: int, e: int, d: int, c: char)
    requires KeyPair(p, q, e, d) && 255 < p * q && c as int < 256
    ensures var code := Decimal(ModExp(p * q, e, c as int % 256));
            && code != "" && IntOf(code).0
            && ByteChar(ModExp(p * q, d, IntOf(code).1) % 256) == c
  {
    CodeIsNumber(p * q, e, c as int % 256);
    CipherRoundTrip(p, q, e, d, c as int);
  }

  lemma {:induction false} CodesDecode(p: int, q: int, e: int, d: int, s: string)
    requires KeyPair(p, q, e, d) && 255 < p * q && IsBytes(s)
    ensures DecodePieces(p * q, d, Codes(p * q, e, s)) == Decoded(s)
  {
    if s != "" {
      CodeDecodes(p, q, e, d, s[0]);
      CodesDecode(p, q, e, d, s[1..]);
      var codes := Codes(p * q, e, s);
      assert codes[1..] == Codes(p * q, e, s[1..]);
      assert [s[0]] + s[1..] == s;
    }
  }

  /** Decrypting an encrypted byte string gives back its part before the first NUL, so it
      gives back the string itself exactly when that contains no NUL. */
  lemma TextRoundTrip(p: int, q: int, e: int, d: int, s: string)
    requires KeyPair(p, q, e, d) && 255 < p * q && IsBytes(s) && s != ""
    ensures var line := Cipherline(p * q, e, s);
            && line != "" && DecodeText(p * q, d, line) == Decoded(CString(s))
            && (DecodeText(p * q, d, line) == Decoded(s) <==> '\0' !in s)
  {
    var N := p * q;
    CipherlineSplits(N, e, s);
    CodesDecode(p, q, e, d, s);
    var ps := Codes(N, e, s) + [""];
    assert ps[..|ps| - 1] == Codes(N, e, s);
    assert CString(s) == s <==> '\0' !in s by {
      if '\0' !in s {
        IndexOfFirst(s, "", '\0');
        assert s + "" == s;
      }
    }
  }
}
