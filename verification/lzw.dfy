/** LZW over strings: `compress` turns text into one byte per code word (returned as
    hex), `decompress` turns those bytes back into the decoded phrases joined by
    spaces. Both start from the 128 single ASCII characters and number new phrases
    from 129; the dictionary is capped near 2^12 entries. */
module Lzw {
  import opened Common

  type byte = x: int | 0 <= x < 256

  const CodeWordBits := 12
  /** `1 << CodeWordBits`. */
  const MaxDictSize := 4096
  /** The first code given to a new phrase: code 128 is skipped. */
  const FirstCode := 129

  const KeyError := "KeyError"
  const PackError := "struct.error: ubyte format requires 0 <= number <= 255"
  const AssertionError := "AssertionError"
  const IndexError := "IndexError: string index out of range"

  /** The concatenation of a list of phrases. */
  function Concat(ws: seq<string>): string
  {
    if ws == [] then [] else Concat(ws[..|ws| - 1]) + ws[|ws| - 1]
  }

  lemma ConcatAppend(ws: seq<string>, w: string)
    ensures Concat(ws + [w]) == Concat(ws) + w
  {
    assert (ws + [w])[..|ws|] == ws;
  }

  /** Python's `' '.join(pieces)`. */
  function Join(pieces: seq<string>): string
  {
    if pieces == [] then []
    else if |pieces| == 1 then pieces[0]
    else pieces[0] + " " + Join(pieces[1..])
  }

  // ---------------------------------------------------------------------------
  // The initial dictionaries

  /** Python's `chr(c)` for an ASCII code. */
  function Chr(c: int): (s: string)
    requires 0 <= c < 128
    ensures |s| == 1 && s[0] as int == c
  {
    [c as char]
  }

  /** The single characters below `n`, each mapped to its own code. */
  function CharCodes(n: int): map<string, int>
    requires n <= 128
  {
    map c | 0 <= c < n :: Chr(c) := c
  }

  /** The codes below `n`, each mapped to its own single character. */
  function CodeChars(n: int): map<int, string>
    requires n <= 128
  {
    map c | 0 <= c < n :: Chr(c)
  }

  lemma {:induction false} CharCodesSize(n: nat)
    requires n <= 128
    ensures |CharCodes(n)| == n
  {
    if n > 0 {
      CharCodesSize(n - 1);
      assert CharCodes(n) == CharCodes(n - 1)[Chr(n - 1) := n - 1];
    }
  }

  lemma {:induction false} CodeCharsSize(n: nat)
    requires n <= 128
    ensures |CodeChars(n)| == n
  {
    if n > 0 {
      CodeCharsSize(n - 1);
      assert CodeChars(n) == CodeChars(n - 1)[n - 1 := Chr(n - 1)];
    }
  }

  /** Both sides start with the 128 ASCII characters, each under its own code; the
      compressor's table holds nothing else. */
  lemma InitialDictionaries()
    ensures |CharCodes(128)| == 128 && |CodeChars(128)| == 128
    ensures forall s :: s in CharCodes(128) ==> 0 <= CharCodes(128)[s] < 128 && s == Chr(CharCodes(128)[s])
    ensures forall c :: 0 <= c < 128 ==> Chr(c) in CharCodes(128) && CharCodes(128)[Chr(c)] == c
    ensures forall c :: c in CodeChars(128) <==> 0 <= c < 128
    ensures forall c :: 0 <= c < 128 ==> CodeChars(128)[c] == Chr(c)
  {
    CharCodesSize(128);
    CodeCharsSize(128);
  }

  // ---------------------------------------------------------------------------
  // compress

  /** The compressor's variables: the dictionary, the next code, the phrase being
      matched and the bytes written so far. */
  datatype Compressor = Compressor(dict: map<string, int>, code: int, phrase: string, out: seq<byte>)

  const InitialCompressor := Compressor(CharCodes(128), FirstCode, [], [])

  /** The one-byte `pack` of a code. */
  function Pack(out: seq<byte>, code: int): Result<seq<byte>, string>
  {
    if 0 <= code < 256 then Success(out + [code]) else Failure(PackError)
  }

  /** One character of the main loop. The phrase without its last character is the
      previous phrase, so that is what is looked up when the extended phrase is
      unknown (a lookup of the empty phrase raises). */
  function CompressStep(st: Compressor, cur: char): Result<Compressor, string>
  {
    var phrase := st.phrase + [cur];
    if phrase in st.dict then Success(st.(phrase := phrase))
    else if st.phrase !in st.dict then Failure(KeyError)
    else
      var out :- Pack(st.out, st.dict[st.phrase]);
      if |st.dict| < MaxDictSize then
        Success(Compressor(st.dict[phrase := st.code], st.code + 1, [cur], out))
      else
        Success(Compressor(st.dict, st.code, [cur], out))
  }

  /** The main loop over `data`, from state `st`. */
  function CompressFrom(st: Compressor, data: string): Result<Compressor, string>
    decreases |data|
  {
    if data == [] then Success(st)
    else
      var s :- CompressFrom(st, data[..|data| - 1]);
      CompressStep(s, data[|data| - 1])
  }

  /** The bytes `compress` writes: the main loop, then the final phrase's code, which
      must be known. */
  function CompressCodes(data: string): Result<seq<byte>, string>
  {
    var st :- CompressFrom(InitialCompressor, data);
    if st.phrase !in st.dict then Failure(AssertionError)
    else Pack(st.out, st.dict[st.phrase])
  }

  function HexDigit(d: int): char
    requires 0 <= d < 16
  {
    if d < 10 then ('0' as int + d) as char else ('a' as int + d - 10) as char
  }

  function HexValue(ch: char): int
  {
    if '0' <= ch <= '9' then ch as int - '0' as int
    else if 'a' <= ch <= 'f' then ch as int - 'a' as int + 10
    else 0
  }

  /** `bytes.hex()`: two lower-case digits per byte. */
  function Hex(bs: seq<byte>): (s: string)
    ensures |s| == 2 * |bs|
  {
    if bs == [] then [] else [HexDigit(bs[0] / 16), HexDigit(bs[0] % 16)] + Hex(bs[1..])
  }

  /** `bytes.fromhex` on a string of an even number of hex digits. */
  function Unhex(s: string): seq<int>
    requires |s| % 2 == 0
  {
    if s == [] then [] else [16 * HexValue(s[0]) + HexValue(s[1])] + Unhex(s[2..])
  }

  /** The hex text loses nothing: every byte can be read back. */
  lemma {:induction false} UnhexHex(bs: seq<byte>)
    ensures Unhex(Hex(bs)) == bs
  {
    if bs != [] {
      var s := Hex(bs);
      assert s[2..] == Hex(bs[1..]);
      UnhexHex(bs[1..]);
    }
  }

  /** What `compress` returns: the hex text of its bytes. */
  function Compressed(data: string): Result<string, string>
  {
    var bs :- CompressCodes(data);
    Success(Hex(bs))
  }

  lemma {:induction false} CompressFromFailureSticks(st: Compressor, data: string, i: int)
    requires 0 <= i <= |data| && CompressFrom(st, data[..i]).Failure?
    ensures CompressFrom(st, data) == CompressFrom(st, data[..i])
    decreases |data| - i
  {
    if i < |data| {
      assert data[..i + 1][..i] == data[..i];
      CompressFromFailureSticks(st, data, i + 1);
    } else {
      assert data[..i] == data;
    }
  }

  method Compress(data: string) returns (r: Result<string, string>)
    ensures r == Compressed(data)
  {
    var dict := CharCodes(128);
    var code := FirstCode;
    var phrase: string := [];
    var result: seq<byte> := [];
    for i := 0 to |data|
      invariant CompressFrom(InitialCompressor, data[..i]) == Success(Compressor(dict, code, phrase, result))
    {
      assert data[..i + 1][..i] == data[..i];
      var cur := data[i];
      phrase := phrase + [cur];
      if phrase !in dict {
        var prefix := phrase[..|phrase| - 1];
        assert prefix + [cur] == phrase;
        if prefix !in dict {
          CompressFromFailureSticks(InitialCompressor, data, i + 1);
          return Failure(KeyError);
        }
        if !(0 <= dict[prefix] < 256) {
          CompressFromFailureSticks(InitialCompressor, data, i + 1);
          return Failure(PackError);
        }
        result := result + [dict[prefix]];
        if |dict| < MaxDictSize {
          dict := dict[phrase := code];
          code := code + 1;
        }
        phrase := [cur];
      }
    }
    assert data[..|data|] == data;
    if phrase !in dict {
      return Failure(AssertionError);
    }
    if !(0 <= dict[phrase] < 256) {
      return Failure(PackError);
    }
    result := result + [dict[phrase]];
    r := Success(Hex(result));
  }

  // ---------------------------------------------------------------------------
  // decompress

  /** The decompressor's variables: the dictionary, the next code, the previous
      phrase and the pieces decoded so far. */
  datatype Decompressor = Decompressor(dict: map<int, string>, code: int, phrase: string, pieces: seq<string>)

  const InitialDecompressor := Decompressor(CodeChars(128), FirstCode, [], [])

  /** One byte of the main loop. A code not yet in the dictionary stands for the
      previous phrase followed by its own first character; after the first code,
      the previous phrase extended by the first character of the current entry gets
      the next code while the dictionary has at most `MaxDictSize` entries. */
  function DecompressStep(st: Decompressor, cur: byte): Result<Decompressor, string>
  {
    if cur !in st.dict && st.phrase == [] then Failure(IndexError)
    else
      var dict := if cur in st.dict then st.dict else st.dict[cur := st.phrase + [st.phrase[0]]];
      var pieces := st.pieces + [dict[cur]];
      if st.phrase != [] && |dict| <= MaxDictSize then
        if dict[cur] == [] then Failure(IndexError)
        else
          var dict' := dict[st.code := st.phrase + [dict[cur][0]]];
          Success(Decompressor(dict', st.code + 1, dict'[cur], pieces))
      else
        Success(Decompressor(dict, st.code, dict[cur], pieces))
  }

  function DecompressFrom(st: Decompressor, data: seq<byte>): Result<Decompressor, string>
    decreases |data|
  {
    if data == [] then Success(st)
    else
      var s :- DecompressFrom(st, data[..|data| - 1]);
      DecompressStep(s, data[|data| - 1])
  }

  /** The decoded pieces, before they are joined. */
  function DecompressPieces(data: seq<byte>): Result<seq<string>, string>
  {
    var st :- DecompressFrom(InitialDecompressor, data);
    Success(st.pieces)
  }

  /** What `decompress` returns: the pieces joined by single spaces. */
  function Decompressed(data: seq<byte>): Result<string, string>
  {
    var pieces :- DecompressPieces(data);
    Success(Join(pieces))
  }

  lemma {:induction false} DecompressFromFailureSticks(st: Decompressor, data: seq<byte>, i: int)
    requires 0 <= i <= |data| && DecompressFrom(st, data[..i]).Failure?
    ensures DecompressFrom(st, data) == DecompressFrom(st, data[..i])
    decreases |data| - i
  {
    if i < |data| {
      assert data[..i + 1][..i] == data[..i];
      DecompressFromFailureSticks(st, data, i + 1);
    } else {
      assert data[..i] == data;
    }
  }

  method Decompress(data: seq<byte>) returns (r: Result<string, string>)
    ensures r == Decompressed(data)
  {
    var dict := CodeChars(128);
    var code := FirstCode;
    var phrase: string := [];
    var result: seq<string> := [];
    for i := 0 to |data|
      invariant DecompressFrom(InitialDecompressor, data[..i]) == Success(Decompressor(dict, code, phrase, result))
    {
      assert data[..i + 1][..i] == data[..i];
      ghost var st := Decompressor(dict, code, phrase, result);
      var cur := data[i];
      if cur !in dict {
        if phrase == [] {
          DecompressFromFailureSticks(InitialDecompressor, data, i + 1);
          return Failure(IndexError);
        }
        dict := dict[cur := phrase + [phrase[0]]];
      }
      result := result + [dict[cur]];
      if phrase != [] && |dict| <= MaxDictSize {
        if dict[cur] == [] {
          DecompressFromFailureSticks(InitialDecompressor, data, i + 1);
          return Failure(IndexError);
        }
        dict := dict[code := phrase + [dict[cur][0]]];
        code := code + 1;
      }
      phrase := dict[cur];
      assert DecompressStep(st, cur) == Success(Decompressor(dict, code, phrase, result));
      assert data[..i + 1] == data[..i] + [cur];
      DecompressFromSnoc(InitialDecompressor, data[..i], cur, st, Decompressor(dict, code, phrase, result));
    }
    assert data[..|data|] == data;
    r := Success(Join(result));
  }

  // ---------------------------------------------------------------------------
  // Round trip

  /** Code `c` stands for phrase `W[i]` given the phrases before it: a single ASCII
      character, or the entry made when `W[j]` was written, `W[j]` followed by the
      first character of `W[j + 1]` (code `FirstCode + j`, made before `W[i]`). */
  ghost predicate Coded(W: seq<string>, i: int, c: int)
    requires 0 <= i < |W|
  {
    || (0 <= c < 128 && W[i] == Chr(c))
    || (FirstCode <= c && c - FirstCode < i && W[c - 128] != [] && W[i] == W[c - FirstCode] + [W[c - 128][0]])
  }

  /** The phrase after `ws[j]`: the next written one, or the one being matched. */
  ghost function Next(ws: seq<string>, p: string, j: int): string
    requires 0 <= j < |ws|
  {
    if j + 1 < |ws| then ws[j + 1] else p
  }

  /** Every written byte codes its phrase, and no phrase is empty. */
  ghost predicate AllCoded(ws: seq<string>, out: seq<byte>)
  {
    && |out| == |ws|
    && (forall i :: 0 <= i < |ws| ==> ws[i] != [])
    && forall i :: 0 <= i < |ws| ==> Coded(ws, i, out[i])
  }

  /** The table holds the ASCII characters and one entry per written phrase (while
      there was room), and the counter is one past the table's size. */
  ghost predicate TableInv(dict: map<string, int>, code: int, ws: seq<string>, p: string)
    requires ws != [] ==> p != []
    requires forall i :: 0 <= i < |ws| ==> ws[i] != []
  {
    && |dict| == code - 1
    && FirstCode <= code <= MaxDictSize + 1 && code <= FirstCode + |ws|
    && (code <= MaxDictSize ==> code == FirstCode + |ws|)
    && forall s :: s in dict ==>
         || (0 <= dict[s] < 128 && s == Chr(dict[s]))
         || (FirstCode <= dict[s] < code && s == ws[dict[s] - FirstCode] + [Next(ws, p, dict[s] - FirstCode)[0]])
  }

  /** The compressor after reading `data` and writing the phrases `ws`: the phrases
      and the current one spell `data`, and the bytes and the table are as above. */
  ghost predicate CompressorInv(st: Compressor, ws: seq<string>, data: string)
  {
    && Concat(ws) + st.phrase == data
    && (ws != [] ==> st.phrase != [])
    && AllCoded(ws, st.out)
    && TableInv(st.dict, st.code, ws, st.phrase)
  }

  /** The phrases written while reading `data`. */
  ghost function Written(data: string): seq<string>
    requires CompressFrom(InitialCompressor, data).Success?
    decreases |data|
  {
    if data == [] then []
    else
      var pre := data[..|data| - 1];
      var st := CompressFrom(InitialCompressor, pre).value;
      Written(pre) + if st.phrase + [data[|data| - 1]] in st.dict then [] else [st.phrase]
  }

  /** A code in the table, when the phrase it maps is written next, codes it. */
  lemma TableEntryIsCoded(dict: map<string, int>, code: int, ws: seq<string>, p: string)
    requires p != [] && (forall i :: 0 <= i < |ws| ==> ws[i] != [])
    requires TableInv(dict, code, ws, p) && p in dict
    ensures Coded(ws + [p], |ws|, dict[p])
  {
    var c := dict[p];
    var W := ws + [p];
    if FirstCode <= c {
      var j := c - FirstCode;
      assert W[j] == ws[j];
      assert W[j + 1] == Next(ws, p, j);
    }
  }

  /** Writing one more phrase keeps the earlier bytes coding their phrases. */
  lemma AllCodedAppend(ws: seq<string>, out: seq<byte>, q: string, c: byte)
    requires AllCoded(ws, out) && q != [] && Coded(ws + [q], |ws|, c)
    ensures AllCoded(ws + [q], out + [c])
  {
    var ws' := ws + [q];
    forall i | 0 <= i < |ws| ensures Coded(ws', i, out[i]) {
      assert Coded(ws, i, out[i]);
      if FirstCode <= out[i] {
        assert ws'[out[i] - 128] == ws[out[i] - 128];
      }
    }
  }

  /** Extending the current phrase keeps the table's entries. */
  lemma TableInvExtend(dict: map<string, int>, code: int, ws: seq<string>, q: string, cur: char)
    requires (ws != [] ==> q != []) && (forall i :: 0 <= i < |ws| ==> ws[i] != [])
    requires TableInv(dict, code, ws, q)
    ensures TableInv(dict, code, ws, q + [cur])
  {
    forall s | s in dict && FirstCode <= dict[s] < code
      ensures Next(ws, q + [cur], dict[s] - FirstCode)[0] == Next(ws, q, dict[s] - FirstCode)[0]
    {
    }
  }

  /** Writing `q` and starting again at `cur` keeps the table's entries and adds
      `q + [cur]` under the next code while there is room. */
  lemma TableInvEmit(dict: map<string, int>, code: int, ws: seq<string>, q: string, cur: char)
    requires q != [] && (forall i :: 0 <= i < |ws| ==> ws[i] != [])
    requires TableInv(dict, code, ws, q) && q + [cur] !in dict
    ensures |dict| < MaxDictSize ==> TableInv(dict[q + [cur] := code], code + 1, ws + [q], [cur])
    ensures |dict| >= MaxDictSize ==> TableInv(dict, code, ws + [q], [cur])
  {
    if |dict| < MaxDictSize {
      TableInvGrow(dict, code, ws, q, cur);
    } else {
      TableInvFull(dict, code, ws, q, cur);
    }
  }

  /** The phrases before the new one keep their successors when `q` is written. */
  lemma NextAfterEmit(ws: seq<string>, q: string, cur: char, j: int)
    requires 0 <= j < |ws|
    ensures (ws + [q])[j] == ws[j] && Next(ws + [q], [cur], j) == Next(ws, q, j)
  {
  }

  lemma TableInvGrow(dict: map<string, int>, code: int, ws: seq<string>, q: string, cur: char)
    requires q != [] && (forall i :: 0 <= i < |ws| ==> ws[i] != [])
    requires TableInv(dict, code, ws, q) && q + [cur] !in dict && |dict| < MaxDictSize
    ensures TableInv(dict[q + [cur] := code], code + 1, ws + [q], [cur])
  {
    var ws' := ws + [q];
    var dict' := dict[q + [cur] := code];
    assert code - FirstCode == |ws|;
    assert Next(ws', [cur], |ws|) == [cur];
    forall s | s in dict'
      ensures || (0 <= dict'[s] < 128 && s == Chr(dict'[s]))
              || (FirstCode <= dict'[s] < code + 1 && s == ws'[dict'[s] - FirstCode] + [Next(ws', [cur], dict'[s] - FirstCode)[0]])
    {
      if s != q + [cur] {
        assert s in dict && dict'[s] == dict[s];
        if FirstCode <= dict[s] {
          NextAfterEmit(ws, q, cur, dict[s] - FirstCode);
        }
      }
    }
  }

  lemma TableInvFull(dict: map<string, int>, code: int, ws: seq<string>, q: string, cur: char)
    requires q != [] && (forall i :: 0 <= i < |ws| ==> ws[i] != [])
    requires TableInv(dict, code, ws, q) && |dict| >= MaxDictSize
    ensures TableInv(dict, code, ws + [q], [cur])
  {
    var ws' := ws + [q];
    forall s | s in dict
      ensures || (0 <= dict[s] < 128 && s == Chr(dict[s]))
              || (FirstCode <= dict[s] < code && s == ws'[dict[s] - FirstCode] + [Next(ws', [cur], dict[s] - FirstCode)[0]])
    {
      if FirstCode <= dict[s] {
        NextAfterEmit(ws, q, cur, dict[s] - FirstCode);
      }
    }
  }

  lemma CompressStepKeepsInv(st: Compressor, ws: seq<string>, data: string, cur: char)
    requires CompressorInv(st, ws, data) && CompressStep(st, cur).Success?
    ensures st.phrase + [cur] in st.dict ==> CompressorInv(CompressStep(st, cur).value, ws, data + [cur])
    ensures st.phrase + [cur] !in st.dict ==>
      CompressorInv(CompressStep(st, cur).value, ws + [st.phrase], data + [cur])
  {
    var st' := CompressStep(st, cur).value;
    var q := st.phrase;
    if q + [cur] in st.dict {
      assert st' == st.(phrase := q + [cur]);
      TableInvExtend(st.dict, st.code, ws, q, cur);
    } else {
      assert q in st.dict;
      assert q != [] by {
        if q == [] {
          assert false;
        }
      }
      assert st'.phrase == [cur] && st'.out == st.out + [st.dict[q]];
      TableEntryIsCoded(st.dict, st.code, ws, q);
      AllCodedAppend(ws, st.out, q, st.dict[q]);
      ConcatAppend(ws, q);
      TableInvEmit(st.dict, st.code, ws, q, cur);
    }
  }

  lemma InitialCompressorInv()
    ensures CompressorInv(InitialCompressor, [], [])
  {
    InitialDictionaries();
    assert Concat([]) == [];
  }

  /** The invariant carried over one more character of the main loop. */
  lemma CompressInvSnoc(pre: string, cur: char)
    requires CompressFrom(InitialCompressor, pre + [cur]).Success?
    requires CompressFrom(InitialCompressor, pre).Success?
    requires CompressorInv(CompressFrom(InitialCompressor, pre).value, Written(pre), pre)
    ensures CompressorInv(CompressFrom(InitialCompressor, pre + [cur]).value, Written(pre + [cur]), pre + [cur])
  {
    var data := pre + [cur];
    assert data[..|data| - 1] == pre && data[|data| - 1] == cur;
    var st := CompressFrom(InitialCompressor, pre).value;
    assert CompressFrom(InitialCompressor, data) == CompressStep(st, cur);
    var st' := CompressStep(st, cur).value;
    assert Written(data) == Written(pre) + if st.phrase + [cur] in st.dict then [] else [st.phrase];
    CompressStepKeepsInv(st, Written(pre), pre, cur);
    if st.phrase + [cur] in st.dict {
      assert Written(data) == Written(pre);
      assert CompressorInv(st', Written(pre), data);
    } else {
      assert Written(data) == Written(pre) + [st.phrase];
      assert CompressorInv(st', Written(pre) + [st.phrase], data);
    }
  }

  lemma {:induction false} CompressInv(data: string)
    requires CompressFrom(InitialCompressor, data).Success?
    ensures CompressorInv(CompressFrom(InitialCompressor, data).value, Written(data), data)
    decreases |data|
  {
    if data == [] {
      InitialCompressorInv();
    } else {
      var pre, cur := data[..|data| - 1], data[|data| - 1];
      CompressInv(pre);
      assert pre + [cur] == data;
      CompressInvSnoc(pre, cur);
    }
  }

  /** The decompressor's table after the first `k` codes of phrases `W`: the ASCII
      characters, and every entry the compressor had made before writing `W[k]`
      (one more once the compressor's table is full), under consecutive codes
      from `FirstCode`. */
  ghost predicate DecodeTable(dict: map<int, string>, code: int, W: seq<string>, k: int)
    requires 1 <= k <= |W| && forall i :: 0 <= i < |W| ==> W[i] != []
  {
    && |dict| == code - 1
    && FirstCode <= code <= 128 + k && code <= MaxDictSize + 2
    && (code <= MaxDictSize + 1 ==> code == 128 + k)
    && (forall c :: c in dict <==> 0 <= c < 128 || FirstCode <= c < code)
    && (forall c :: 0 <= c < 128 ==> dict[c] == Chr(c))
    && (forall c :: FirstCode <= c < code ==> dict[c] == W[c - FirstCode] + [W[c - 128][0]])
  }

  /** The decompressor after reading the first `k` codes of phrases `W`: it has
      decoded `W[..k]` and holds `W[k - 1]`. */
  ghost predicate DecompressorInv(st: Decompressor, W: seq<string>, k: int)
    requires 1 <= k <= |W|
  {
    && (forall i :: 0 <= i < |W| ==> W[i] != [])
    && st.pieces == W[..k]
    && st.phrase == W[k - 1]
    && DecodeTable(st.dict, st.code, W, k)
  }

  /** A known code decodes to its phrase, and the entry for `W[k - 1]` joins the
      table while it has room. */
  lemma DecodeKnown(dict: map<int, string>, code: int, W: seq<string>, k: int, c: byte)
    requires 1 <= k < |W| && (forall i :: 0 <= i < |W| ==> W[i] != [])
    requires DecodeTable(dict, code, W, k) && Coded(W, k, c) && c in dict
    ensures dict[c] == W[k]
    ensures |dict| <= MaxDictSize ==> DecodeTable(dict[code := W[k - 1] + [W[k][0]]], code + 1, W, k + 1)
    ensures |dict| > MaxDictSize ==> DecodeTable(dict, code, W, k + 1)
  {
    if |dict| <= MaxDictSize {
      var dict' := dict[code := W[k - 1] + [W[k][0]]];
      assert code !in dict;
      assert |dict'| == |dict| + 1;
    }
  }

  /** An unknown code is the one the compressor made just before writing `W[k]`:
      the previous phrase followed by its own first character. */
  lemma DecodeUnknown(dict: map<int, string>, code: int, W: seq<string>, k: int, c: byte)
    requires 1 <= k < |W| && (forall i :: 0 <= i < |W| ==> W[i] != [])
    requires DecodeTable(dict, code, W, k) && Coded(W, k, c) && c !in dict
    ensures c == code && W[k] == W[k - 1] + [W[k - 1][0]]
    ensures |dict[c := W[k]]| <= MaxDictSize
    ensures DecodeTable(dict[c := W[k]], code + 1, W, k + 1)
  {
    assert c == code;
    assert W[k][0] == W[k - 1][0];
  }

  lemma DecompressStepKeepsInv(st: Decompressor, W: seq<string>, k: int, c: byte)
    requires 0 <= k < |W| && (forall i :: 0 <= i < |W| ==> W[i] != []) && Coded(W, k, c)
    requires k == 0 ==> st == InitialDecompressor
    requires k > 0 ==> DecompressorInv(st, W, k)
    ensures DecompressStep(st, c).Success? && DecompressorInv(DecompressStep(st, c).value, W, k + 1)
  {
    var st' := DecompressStep(st, c).value;
    if k == 0 {
      InitialDictionaries();
      CodeCharsSize(128);
      assert c < 128 && c in st.dict;
      assert st' == Decompressor(st.dict, st.code, Chr(c), [Chr(c)]);
      assert W[..1] == [W[0]];
    } else if c in st.dict {
      DecodeKnown(st.dict, st.code, W, k, c);
      assert W[..k + 1] == W[..k] + [W[k]];
      if |st.dict| <= MaxDictSize {
        assert c != st.code;
      }
    } else {
      DecodeUnknown(st.dict, st.code, W, k, c);
      assert W[..k + 1] == W[..k] + [W[k]];
      assert st.dict[c := W[k]][st.code := W[k]] == st.dict[c := W[k]];
    }
  }

  lemma {:induction false} DecompressTrace(W: seq<string>, codes: seq<byte>, k: int)
    requires AllCoded(W, codes) && 1 <= k <= |W|
    ensures DecompressFrom(InitialDecompressor, codes[..k]).Success?
    ensures DecompressorInv(DecompressFrom(InitialDecompressor, codes[..k]).value, W, k)
    decreases k
  {
    var prev := codes[..k - 1];
    assert codes[..k][..k - 1] == prev;
    if k == 1 {
      assert prev == [];
      DecompressStepKeepsInv(InitialDecompressor, W, 0, codes[0]);
    } else {
      DecompressTrace(W, codes, k - 1);
      DecompressStepKeepsInv(DecompressFrom(InitialDecompressor, prev).value, W, k - 1, codes[k - 1]);
    }
  }

  /** The phrases behind the bytes `compress` writes: they spell the text, and
      each byte codes its phrase. */
  lemma CompressWrites(data: string) returns (W: seq<string>)
    requires CompressCodes(data).Success?
    ensures AllCoded(W, CompressCodes(data).value) && Concat(W) == data
  {
    var st := CompressFrom(InitialCompressor, data).value;
    var ws, q := Written(data), st.phrase;
    CompressInv(data);
    assert q in st.dict;
    assert q != [] by {
      if q == [] {
        assert false;
      }
    }
    assert CompressCodes(data).value == st.out + [st.dict[q]];
    TableEntryIsCoded(st.dict, st.code, ws, q);
    AllCodedAppend(ws, st.out, q, st.dict[q]);
    ConcatAppend(ws, q);
    W := ws + [q];
  }

  /** Decompressing what `compress` wrote gives back the phrases it wrote, which
      spell the original text (`decompress` puts a space between them). */
  lemma RoundTrip(data: string)
    requires CompressCodes(data).Success?
    ensures DecompressPieces(CompressCodes(data).value).Success?
    ensures Concat(DecompressPieces(CompressCodes(data).value).value) == data
  {
    var codes := CompressCodes(data).value;
    var W := CompressWrites(data);
    DecompressTrace(W, codes, |W|);
    assert codes[..|W|] == codes;
    assert W[..|W|] == W;
    assert DecompressPieces(codes) == Success(W);
  }

  ghost predicate IsAscii(s: string)
  {
    forall k :: 0 <= k < |s| ==> (s[k] as int) < 128
  }

  /** Every coded phrase is ASCII text: a single ASCII character, or an earlier
      phrase followed by an ASCII character. */
  lemma {:induction false} CodedPhrasesAreAscii(W: seq<string>, codes: seq<byte>, i: int)
    requires AllCoded(W, codes) && 0 <= i < |W|
    ensures IsAscii(W[i])
    decreases i
  {
    var c := codes[i];
    assert Coded(W, i, c);
    if FirstCode <= c {
      var j := c - FirstCode;
      CodedPhrasesAreAscii(W, codes, j);
      if j + 1 < i {
        CodedPhrasesAreAscii(W, codes, j + 1);
      } else {
        assert W[i][0] == W[j][0];
      }
    }
  }

  lemma {:induction false} ConcatAscii(ws: seq<string>)
    requires forall i :: 0 <= i < |ws| ==> IsAscii(ws[i])
    ensures IsAscii(Concat(ws))
  {
    if ws != [] {
      ConcatAscii(ws[..|ws| - 1]);
    }
  }

  /** `compress` raises on any text that is not pure ASCII: the character falls
      outside the initial table, so the lookup of the phrase before it, or the
      final assertion, fails. */
  lemma CompressRejectsNonAscii(data: string)
    requires !IsAscii(data)
    ensures CompressCodes(data).Failure?
  {
    if CompressCodes(data).Success? {
      var W := CompressWrites(data);
      forall i | 0 <= i < |W| ensures IsAscii(W[i]) {
        CodedPhrasesAreAscii(W, CompressCodes(data).value, i);
      }
      ConcatAscii(W);
    }
  }

  /** `compress('')` fails its final assertion: the empty phrase is not in the table. */
  lemma CompressEmptyFails()
    ensures Compressed([]) == Failure(AssertionError)
  {
    InitialDictionaries();
    assert [] !in CharCodes(128);
  }

  /** The compressor's table never exceeds `MaxDictSize` entries, and code 128 is
      never assigned nor written. */
  lemma CompressTableBounds(data: string)
    requires CompressFrom(InitialCompressor, data).Success?
    ensures |CompressFrom(InitialCompressor, data).value.dict| <= MaxDictSize
    ensures forall s :: s in CompressFrom(InitialCompressor, data).value.dict ==>
      CompressFrom(InitialCompressor, data).value.dict[s] != 128
    ensures forall b :: b in CompressFrom(InitialCompressor, data).value.out ==> b != 128
  {
    CompressInv(data);
    var st := CompressFrom(InitialCompressor, data).value;
    var ws := Written(data);
    forall b | b in st.out ensures b != 128 {
      var i :| 0 <= i < |st.out| && st.out[i] == b;
      assert Coded(ws, i, b);
    }
  }

  /** A code the table does not hold yet stands for the previous phrase followed by
      its own first character; with no previous phrase it raises. */
  lemma DecodeUnknownCode(st: Decompressor, cur: byte)
    requires cur !in st.dict
    ensures st.phrase == [] ==> DecompressStep(st, cur) == Failure(IndexError)
    ensures st.phrase != [] ==>
      && DecompressStep(st, cur).Success?
      && DecompressStep(st, cur).value.pieces == st.pieces + [st.phrase + [st.phrase[0]]]
  {
  }

  /** One more character of the main loop, when the loop so far succeeded. */
  lemma CompressFromSnoc(st: Compressor, data: string, c: char, s: Compressor, s': Compressor)
    requires CompressFrom(st, data) == Success(s) && CompressStep(s, c) == Success(s')
    ensures CompressFrom(st, data + [c]) == Success(s')
  {
    assert (data + [c])[..|data|] == data;
  }

  lemma DecompressFromSnoc(st: Decompressor, data: seq<byte>, c: byte, s: Decompressor, s': Decompressor)
    requires DecompressFrom(st, data) == Success(s) && DecompressStep(s, c) == Success(s')
    ensures DecompressFrom(st, data + [c]) == Success(s')
  {
    assert (data + [c])[..|data|] == data;
  }

  /** The table facts the examples need. */
  lemma ExampleTables()
    ensures var d := CharCodes(128);
      && |d| == 128 && "A" in d && d["A"] == 65 && "B" in d && d["B"] == 66
      && "AB" !in d && "BA" !in d && "ABA" !in d
    ensures var d := CodeChars(128);
      && |d| == 128 && 65 in d && d[65] == "A" && 66 in d && d[66] == "B"
      && 129 !in d && 130 !in d && 131 !in d
  {
    InitialDictionaries();
    assert Chr(65) == "A" && Chr(66) == "B";
  }

  /** The first four characters of `compress('ABABABA')`, from any table holding
      `A` and `B` but neither `AB` nor `BA`. */
  lemma CompressABAB(d: map<string, int>)
    requires |d| == 128 && "A" in d && d["A"] == 65 && "B" in d && d["B"] == 66
    requires "AB" !in d && "BA" !in d
    ensures CompressFrom(Compressor(d, 129, [], []), "ABAB") ==
      Success(Compressor(d["AB" := 129]["BA" := 130], 131, "AB", [65, 66]))
  {
    var d1 := d["AB" := 129];
    var d2 := d1["BA" := 130];
    var st0 := Compressor(d, 129, [], []);
    var st1 := Compressor(d, 129, "A", []);
    var st2 := Compressor(d1, 130, "B", [65]);
    var st3 := Compressor(d2, 131, "A", [65, 66]);
    var st4 := Compressor(d2, 131, "AB", [65, 66]);
    assert [] + ['A'] == "A";
    assert CompressStep(st0, 'A') == Success(st1);
    CompressFromSnoc(st0, [], 'A', st0, st1);
    assert "A" + ['B'] == "AB" && [] + [65] == [65];
    assert CompressStep(st1, 'B').Success?;
    assert CompressStep(st1, 'B').value == st2;
    CompressFromSnoc(st0, "A", 'B', st1, st2);
    assert "B" + ['A'] == "BA" && [65] + [66] == [65, 66];
    assert CompressStep(st2, 'A').Success?;
    assert CompressStep(st2, 'A').value == st3;
    CompressFromSnoc(st0, "AB", 'A', st2, st3);
    assert "ABA" + ['B'] == "ABAB";
    assert CompressStep(st3, 'B') == Success(st4);
    CompressFromSnoc(st0, "ABA", 'B', st3, st4);
  }

  /** `compress('ABABABA')` from any table holding `A` and `B` but none of the
      longer phrases met on the way. */
  lemma CompressABABA(d: map<string, int>)
    requires |d| == 128 && "A" in d && d["A"] == 65 && "B" in d && d["B"] == 66
    requires "AB" !in d && "BA" !in d && "ABA" !in d
    ensures CompressFrom(Compressor(d, 129, [], []), "ABABA") ==
      Success(Compressor(d["AB" := 129]["BA" := 130]["ABA" := 131], 132, "A", [65, 66, 129]))
  {
    var d2 := d["AB" := 129]["BA" := 130];
    var st0 := Compressor(d, 129, [], []);
    var st4 := Compressor(d2, 131, "AB", [65, 66]);
    var st5 := Compressor(d2["ABA" := 131], 132, "A", [65, 66, 129]);
    CompressABAB(d);
    assert "AB" + ['A'] == "ABA" && [65, 66] + [129] == [65, 66, 129];
    assert "ABAB" + ['A'] == "ABABA";
    assert CompressStep(st4, 'A').Success?;
    assert CompressStep(st4, 'A').value == st5;
    CompressFromSnoc(st0, "ABAB", 'A', st4, st5);
  }

  lemma CompressABABABA(d: map<string, int>)
    requires |d| == 128 && "A" in d && d["A"] == 65 && "B" in d && d["B"] == 66
    requires "AB" !in d && "BA" !in d && "ABA" !in d
    ensures CompressFrom(Compressor(d, 129, [], []), "ABABABA") ==
      Success(Compressor(d["AB" := 129]["BA" := 130]["ABA" := 131], 132, "ABA", [65, 66, 129]))
  {
    var d3 := d["AB" := 129]["BA" := 130]["ABA" := 131];
    var st0 := Compressor(d, 129, [], []);
    var st5 := Compressor(d3, 132, "A", [65, 66, 129]);
    var st6 := Compressor(d3, 132, "AB", [65, 66, 129]);
    var st7 := Compressor(d3, 132, "ABA", [65, 66, 129]);
    CompressABABA(d);
    assert "A" + ['B'] == "AB" && "AB" + ['A'] == "ABA" && "AB" in d3 && "ABA" in d3;
    assert "ABABA" + ['B'] == "ABABAB";
    assert CompressStep(st5, 'B') == Success(st6);
    CompressFromSnoc(st0, "ABABA", 'B', st5, st6);
    assert "ABABAB" + ['A'] == "ABABABA";
    assert CompressStep(st6, 'A') == Success(st7);
    CompressFromSnoc(st0, "ABABAB", 'A', st6, st7);
  }

  lemma CompressCodesExample()
    ensures CompressCodes("ABABABA") == Success([65, 66, 129, 131])
  {
    ExampleTables();
    var d := CharCodes(128);
    CompressABABABA(d);
    var d3 := d["AB" := 129]["BA" := 130]["ABA" := 131];
    assert "ABA" in d3 && d3["ABA"] == 131;
    assert [65, 66, 129] + [131 as byte] == [65, 66, 129, 131];
  }

  lemma HexExample()
    ensures Hex([65, 66, 129, 131]) == "41428183"
  {
  }

  /** The `compress` test vector: `'ABABABA'` becomes `41428183`. */
  lemma CompressExample()
    ensures Compressed("ABABABA") == Success("41428183")
  {
    CompressCodesExample();
    HexExample();
  }

  /** `decompress(b'AB\x81\x83')` from any table holding `A` and `B` under their
      codes and nothing at 129 to 131. */
  lemma DecompressAB129(d: map<int, string>)
    requires |d| == 128 && 65 in d && d[65] == "A" && 66 in d && d[66] == "B"
    requires 129 !in d && 130 !in d && 131 !in d
    ensures DecompressFrom(Decompressor(d, 129, [], []), [65, 66, 129]) ==
      Success(Decompressor(d[129 := "AB"][130 := "BA"], 131, "AB", ["A", "B", "AB"]))
  {
    var st0 := Decompressor(d, 129, [], []);
    var st1 := Decompressor(d, 129, "A", ["A"]);
    var st2 := Decompressor(d[129 := "AB"], 130, "B", ["A", "B"]);
    var st3 := Decompressor(d[129 := "AB"][130 := "BA"], 131, "AB", ["A", "B", "AB"]);
    assert [] + [65 as byte] == [65];
    assert DecompressStep(st0, 65).Success?;
    assert DecompressStep(st0, 65).value == st1;
    DecompressFromSnoc(st0, [], 65, st0, st1);
    assert "A" + ['B'] == "AB" && ["A"] + ["B"] == ["A", "B"];
    assert [65 as byte] + [66 as byte] == [65, 66];
    assert DecompressStep(st1, 66).Success?;
    assert DecompressStep(st1, 66).value == st2;
    DecompressFromSnoc(st0, [65], 66, st1, st2);
    assert "B" + ['A'] == "BA" && ["A", "B"] + ["AB"] == ["A", "B", "AB"];
    assert [65 as byte, 66] + [129 as byte] == [65, 66, 129];
    assert DecompressStep(st2, 129).Success?;
    assert DecompressStep(st2, 129).value == st3;
    DecompressFromSnoc(st0, [65, 66], 129, st2, st3);
  }

  lemma DecompressAB129131(d: map<int, string>)
    requires |d| == 128 && 65 in d && d[65] == "A" && 66 in d && d[66] == "B"
    requires 129 !in d && 130 !in d && 131 !in d
    ensures DecompressFrom(Decompressor(d, 129, [], []), [65, 66, 129, 131]) ==
      Success(Decompressor(d[129 := "AB"][130 := "BA"][131 := "ABA"], 132, "ABA", ["A", "B", "AB", "ABA"]))
  {
    var st0 := Decompressor(d, 129, [], []);
    var st3 := Decompressor(d[129 := "AB"][130 := "BA"], 131, "AB", ["A", "B", "AB"]);
    var st4 := Decompressor(d[129 := "AB"][130 := "BA"][131 := "ABA"], 132, "ABA", ["A", "B", "AB", "ABA"]);
    DecompressAB129(d);
    var d3 := d[129 := "AB"][130 := "BA"][131 := "ABA"];
    assert 131 !in st3.dict && |d3| == 131 && d3[131 := "ABA"] == d3;
    assert "AB" + ['A'] == "ABA" && ["A", "B", "AB"] + ["ABA"] == ["A", "B", "AB", "ABA"];
    assert [65 as byte, 66, 129] + [131 as byte] == [65, 66, 129, 131];
    assert DecompressStep(st3, 131).Success?;
    assert DecompressStep(st3, 131).value == st4;
    DecompressFromSnoc(st0, [65, 66, 129], 131, st3, st4);
  }

  lemma DecompressPiecesExample()
    ensures DecompressPieces([65, 66, 129, 131]) == Success(["A", "B", "AB", "ABA"])
  {
    ExampleTables();
    DecompressAB129131(CodeChars(128));
  }

  lemma JoinExample()
    ensures Join(["A", "B", "AB", "ABA"]) == "A B AB ABA"
  {
    var pieces := ["A", "B", "AB", "ABA"];
    assert pieces[3..] == ["ABA"] && pieces[2..][1..] == pieces[3..];
    assert pieces[1..][1..] == pieces[2..] && pieces[1..] == ["B", "AB", "ABA"];
    assert Join(pieces[2..]) == "AB ABA";
    assert Join(pieces[1..]) == "B AB ABA";
    assert Join(pieces) == "A" + " " + "B AB ABA" == "A B AB ABA";
  }

  /** The `decompress` test vector: the codes of `A`, `B`, `AB`, `ABA`. */
  lemma DecompressExample()
    ensures Decompressed([65, 66, 129, 131]) == Success("A B AB ABA")
  {
    DecompressPiecesExample();
    JoinExample();
  }
}
