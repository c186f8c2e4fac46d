/** The Morse encoder of issue_1/issue_1.py: every character of the message
    is looked up in `LETTER_TO_MORSE` and the codes are joined with single
    spaces.

    The dictionary is modelled by its lookup function `Table`, one case per
    entry in the order written. Its keys are strings, and the message is
    iterated character by character, so the key looked up for a character
    `c` is the one-character string `[c]`. */
module Morse {
  import opened Wrappers
  import opened Text

  /** `LETTER_TO_MORSE.get(key)`. The comma key is the two-character string
      ", " and the space maps to a space. */
  function Table(key: string): Option<string>
  {
    match key
    case "A"   => Some(".-")
    case "B"   => Some("-...")
    case "C"   => Some("-.-.")
    case "D"   => Some("-..")
    case "E"   => Some(".")
    case "F"   => Some("..-.")
    case "G"   => Some("--.")
    case "H"   => Some("....")
    case "I"   => Some("..")
    case "J"   => Some(".---")
    case "K"   => Some("-.-")
    case "L"   => Some(".-..")
    case "M"   => Some("--")
    case "N"   => Some("-.")
    case "O"   => Some("---")
    case "P"   => Some(".--.")
    case "Q"   => Some("--.-")
    case "R"   => Some(".-.")
    case "S"   => Some("...")
    case "T"   => Some("-")
    case "U"   => Some("..-")
    case "V"   => Some("...-")
    case "W"   => Some(".--")
    case "X"   => Some("-..-")
    case "Y"   => Some("-.--")
    case "Z"   => Some("--..")
    case "1"   => Some(".----")
    case "2"   => Some("..---")
    case "3"   => Some("...--")
    case "4"   => Some("....-")
    case "5"   => Some(".....")
    case "6"   => Some("-....")
    case "7"   => Some("--...")
    case "8"   => Some("---..")
    case "9"   => Some("----.")
    case "0"   => Some("-----")
    case ", "  => Some("--..--")
    case "."   => Some(".-.-.-")
    case "?"   => Some("..--..")
    case "/"   => Some("-..-.")
    case "-"   => Some("-....-")
    case "("   => Some("-.--.")
    case ")"   => Some("-.--.-")
    case " "   => Some(" ")
    case _     => None
  }

  /** The characters whose one-character string is a key of the table. */
  predicate IsKeyChar(c: char)
  {
    ('A' <= c <= 'Z') || ('0' <= c <= '9') || c in ".?/-() "
  }

  /** A code made only of dots and dashes, at least one of them. */
  predicate IsDotDash(code: string)
  {
    |code| > 0 && forall i :: 0 <= i < |code| ==> code[i] == '.' || code[i] == '-'
  }

  /** A character can be looked up exactly when it is a capital Latin
      letter, a digit, one of `. ? / - ( )` or the space. In particular a
      lone comma, any lowercase letter and any Cyrillic letter are missing. */
  lemma KeyChars(c: char)
    ensures Table([c]).Some? <==> IsKeyChar(c)
  {
  }

  /** Every code of the table is dots and dashes, except that of the space,
      which is a single space. */
  lemma TableCodes(key: string)
    requires Table(key).Some?
    ensures key == " " ==> Table(key).value == " "
    ensures key != " " ==> IsDotDash(Table(key).value)
  {
  }

  /** The key of a code: the table read backwards. */
  function KeyOf(code: string): Option<string>
  {
    match code
    case ".-"      => Some("A")
    case "-..."    => Some("B")
    case "-.-."    => Some("C")
    case "-.."     => Some("D")
    case "."       => Some("E")
    case "..-."    => Some("F")
    case "--."     => Some("G")
    case "...."    => Some("H")
    case ".."      => Some("I")
    case ".---"    => Some("J")
    case "-.-"     => Some("K")
    case ".-.."    => Some("L")
    case "--"      => Some("M")
    case "-."      => Some("N")
    case "---"     => Some("O")
    case ".--."    => Some("P")
    case "--.-"    => Some("Q")
    case ".-."     => Some("R")
    case "..."     => Some("S")
    case "-"       => Some("T")
    case "..-"     => Some("U")
    case "...-"    => Some("V")
    case ".--"     => Some("W")
    case "-..-"    => Some("X")
    case "-.--"    => Some("Y")
    case "--.."    => Some("Z")
    case ".----"   => Some("1")
    case "..---"   => Some("2")
    case "...--"   => Some("3")
    case "....-"   => Some("4")
    case "....."   => Some("5")
    case "-...."   => Some("6")
    case "--..."   => Some("7")
    case "---.."   => Some("8")
    case "----."   => Some("9")
    case "-----"   => Some("0")
    case "--..--"  => Some(", ")
    case ".-.-.-"  => Some(".")
    case "..--.."  => Some("?")
    case "-..-."   => Some("/")
    case "-....-"  => Some("-")
    case "-.--."   => Some("(")
    case "-.--.-"  => Some(")")
    case " "       => Some(" ")
    case _         => None
  }

  /** No two keys share a code: reading the table backwards recovers the key. */
  lemma KeyOfTable(key: string)
    requires Table(key).Some?
    ensures KeyOf(Table(key).value) == Some(key)
  {
  }

  /** The comprehension `[LETTER_TO_MORSE[letter] for letter in message]`:
      evaluated left to right, so the first character that is not a key is
      the one reported. */
  function Codes(message: string): (r: Result<seq<string>>)
    ensures r.Ok? <==> forall i :: 0 <= i < |message| ==> Table([message[i]]).Some?
    ensures r.Ok? ==> |r.value| == |message|
    ensures r.Ok? ==> forall i :: 0 <= i < |message| ==> r.value[i] == Table([message[i]]).value
    ensures r.Err? ==>
      exists i :: (0 <= i < |message| && Table([message[i]]) == None
        && r.error == KeyError([message[i]])
        && forall j :: 0 <= j < i ==> Table([message[j]]).Some?)
  {
    if |message| == 0 then Ok([])
    else
      var p := message[..|message|-1];
      var c := message[|message|-1];
      assert forall i :: 0 <= i < |p| ==> p[i] == message[i];
      var codes :- Codes(p);
      match Table([c])
      case Some(code) => Ok(codes + [code])
      case None => Err(KeyError([c]))
  }

  /** `encode`: the codes joined by `' '`. */
  function Encode(message: string): (r: Result<string>)
    ensures r.Ok? <==> forall i :: 0 <= i < |message| ==> Table([message[i]]).Some?
    ensures r.Err? ==> Codes(message).Err? && r.error == Codes(message).error
  {
    var codes :- Codes(message);
    Ok(JoinWords(codes))
  }

  /** The codes of a message of table characters, as a comprehension. */
  ghost function CodeList(message: string): (codes: seq<string>)
    requires forall i :: 0 <= i < |message| ==> Table([message[i]]).Some?
    ensures |codes| == |message|
  {
    seq(|message|, i requires 0 <= i < |message| => Table([message[i]]).value)
  }

  /** The codes of a message are those of all but its last character,
      followed by the code of that one. */
  lemma CodeListSnoc(message: string)
    requires |message| > 0
    requires forall i :: 0 <= i < |message| ==> Table([message[i]]).Some?
    ensures CodeList(message) == CodeList(message[..|message|-1]) + [Table([message[|message|-1]]).value]
  {
    var p := message[..|message|-1];
    assert forall i :: 0 <= i < |p| ==> p[i] == message[i];
  }

  /** A message of table characters encodes to the join of its codes. */
  lemma EncodeJoinsCodes(message: string)
    requires forall i :: 0 <= i < |message| ==> Table([message[i]]).Some?
    ensures Encode(message) == Ok(JoinWords(CodeList(message)))
  {
    assert Codes(message).value == CodeList(message);
  }

  /** The empty message encodes to the empty string. */
  lemma EncodeEmpty()
    ensures Encode("") == Ok("")
  {
  }

  /** A message of `n > 0` characters encodes to its codes' total length plus
      the `n - 1` separating spaces. */
  lemma EncodeLength(message: string)
    requires |message| > 0
    requires forall i :: 0 <= i < |message| ==> Table([message[i]]).Some?
    ensures Encode(message).Ok?
    ensures |Encode(message).value| == TotalLength(CodeList(message)) + |message| - 1
  {
    EncodeJoinsCodes(message);
    JoinWordsLength(CodeList(message));
  }

  /** Encoding is compositional: two non-empty messages encode to their
      encodings separated by one space. */
  lemma EncodeConcat(a: string, b: string)
    requires |a| > 0 && |b| > 0
    requires Encode(a).Ok? && Encode(b).Ok?
    ensures Encode(a + b) == Ok(Encode(a).value + " " + Encode(b).value)
  {
    CodeListAppend(a, b);
    EncodeJoinsCodes(a);
    EncodeJoinsCodes(b);
    EncodeJoinsCodes(a + b);
    JoinWordsAppend(CodeList(a), CodeList(b));
  }

  /** The codes of a concatenation are the codes of its parts, in order. */
  lemma CodeListAppend(a: string, b: string)
    requires forall i :: 0 <= i < |a| ==> Table([a[i]]).Some?
    requires forall i :: 0 <= i < |b| ==> Table([b[i]]).Some?
    ensures forall i :: 0 <= i < |a + b| ==> Table([(a + b)[i]]).Some?
    ensures CodeList(a + b) == CodeList(a) + CodeList(b)
  {
    var ab := a + b;
    forall i | 0 <= i < |ab| ensures ab[i] == (if i < |a| then a[i] else b[i - |a|]) {
    }
    var cs := CodeList(a) + CodeList(b);
    forall i | 0 <= i < |ab| ensures Table([ab[i]]).Some? && CodeList(ab)[i] == cs[i] {
      if i < |a| {
        assert ab[i] == a[i];
      } else {
        assert ab[i] == b[i - |a|];
      }
    }
  }

  /** `EncodeConcat` for messages whose codes are known. */
  lemma EncodeJoin(a: string, b: string, x: string, y: string, xy: string)
    requires |a| > 0 && |b| > 0
    requires Encode(a) == Ok(x) && Encode(b) == Ok(y) && xy == x + " " + y
    ensures Encode(a + b) == Ok(xy)
  {
    EncodeConcat(a, b);
  }

  /** The leftmost character that is not a key is the one the `KeyError`
      names, whatever follows it. */
  lemma EncodeFirstMissing(message: string, i: nat)
    requires i < |message| && Table([message[i]]) == None
    requires forall j :: 0 <= j < i ==> Table([message[j]]).Some?
    ensures Encode(message) == Err(KeyError([message[i]]))
  {
    var k :| 0 <= k < |message| && Table([message[k]]) == None
      && Codes(message).error == KeyError([message[k]])
      && forall j :: 0 <= j < k ==> Table([message[j]]).Some?;
    assert k == i;
  }

  /** A message encodes to the join of any list naming each character's code. */
  lemma EncodeFromCodes(message: string, codes: seq<string>)
    requires |codes| == |message|
    requires forall i :: 0 <= i < |message| ==> Table([message[i]]) == Some(codes[i])
    ensures Encode(message) == Ok(JoinWords(codes))
  {
    EncodeJoinsCodes(message);
    assert CodeList(message) == codes;
  }

  /** A three-character message encodes to its three codes with a space
      between each two. */
  lemma EncodeThree(message: string, a: string, b: string, c: string)
    requires |message| == 3
    requires Table([message[0]]) == Some(a)
    requires Table([message[1]]) == Some(b)
    requires Table([message[2]]) == Some(c)
    ensures Encode(message) == Ok(a + " " + b + " " + c)
  {
    EncodeFromCodes(message, [a, b, c]);
    JoinWordsAppend([a], [b]);
    assert [a] + [b] == [a, b];
    JoinWordsAppend([a, b], [c]);
    assert [a, b] + [c] == [a, b, c];
  }

  /** The first example of the docstring. */
  lemma EncodeSos()
    ensures Encode("SOS") == Ok("... --- ...")
  {
    var message := "SOS";
    assert message[0] == 'S' && message[1] == 'O' && message[2] == 'S';
    EncodeThree(message, "...", "---", "...");
    assert "..." + " " + "---" + " " + "..." == "... --- ...";
  }

  /** The first half of the second example of the docstring. */
  lemma EncodeHlw()
    ensures Encode("HLW") == Ok(".... .-.. .--")
  {
    var hlw := "HLW";
    assert hlw[0] == 'H' && hlw[1] == 'L' && hlw[2] == 'W';
    EncodeThree(hlw, "....", ".-..", ".--");
    assert "...." + " " + ".-.." + " " + ".--" == ".... .-.. .--";
  }

  /** The second half of the second example of the docstring. */
  lemma EncodeRld()
    ensures Encode("RLD") == Ok(".-. .-.. -..")
  {
    var rld := "RLD";
    assert rld[0] == 'R' && rld[1] == 'L' && rld[2] == 'D';
    EncodeThree(rld, ".-.", ".-..", "-..");
    assert ".-." + " " + ".-.." + " " + "-.." == ".-. .-.. -..";
  }

  /** The second example of the docstring. */
  lemma EncodeHlwrld()
    ensures Encode("HLWRLD") == Ok(".... .-.. .-- .-. .-.. -..")
  {
    EncodeHlw();
    EncodeRld();
    assert "HLW" + "RLD" == "HLWRLD";
    EncodeJoin("HLW", "RLD", ".... .-.. .--", ".-. .-.. -..", ".... .-.. .-- .-. .-.. -..");
  }

  /** Cyrillic fails on its first letter. */
  lemma EncodeCyrillic()
    ensures Encode("\U{0414}\U{0417}") == Err(KeyError("\U{0414}"))
  {
    var cyrillic := "\U{0414}\U{0417}";
    assert cyrillic[0] == '\U{0414}';
    EncodeFirstMissing(cyrillic, 0);
  }

  /** Lowercase letters are not keys. */
  lemma EncodeLowercase()
    ensures Encode("sos") == Err(KeyError("s"))
  {
    var lower := "sos";
    assert lower[0] == 's';
    EncodeFirstMissing(lower, 0);
  }

  /** A lone comma is not a key: the table's comma key is ", ". */
  lemma EncodeComma()
    ensures Encode("A,B") == Err(KeyError(","))
  {
    var comma := "A,B";
    assert comma[0] == 'A' && comma[1] == ',';
    EncodeFirstMissing(comma, 1);
  }

  /** Reading a signal back: split on whitespace and look every code up in
      the table read backwards. Not part of the exercise; it shows that a
      message without spaces can be recovered from its encoding. Reading
      back discards spaces, because the split treats the space's code as a
      separator; encoding itself keeps them. */
  function Decode(signal: string): Result<string>
  {
    DecodeCodes(Split(signal))
  }

  function DecodeCodes(codes: seq<string>): (r: Result<string>)
    ensures r.Ok? <==> forall k :: 0 <= k < |codes| ==> KeyOf(codes[k]).Some?
  {
    if |codes| == 0 then Ok("")
    else
      var p := codes[..|codes|-1];
      assert forall k :: 0 <= k < |p| ==> p[k] == codes[k];
      var prefix :- DecodeCodes(p);
      match KeyOf(codes[|codes|-1])
      case Some(key) => Ok(prefix + key)
      case None => Err(KeyError(codes[|codes|-1]))
  }

  /** One more code read back appends its key. */
  lemma DecodeCodesSnoc(codes: seq<string>, code: string, prefix: string, key: string)
    requires DecodeCodes(codes) == Ok(prefix) && KeyOf(code) == Some(key)
    ensures DecodeCodes(codes + [code]) == Ok(prefix + key)
  {
    assert (codes + [code])[..|codes|] == codes;
  }

  /** Looking the codes of a message up backwards gives the message back. */
  lemma {:induction false} DecodeCodeList(message: string)
    requires forall i :: 0 <= i < |message| ==> Table([message[i]]).Some?
    ensures DecodeCodes(CodeList(message)) == Ok(message)
    decreases |message|
  {
    if |message| > 0 {
      var n := |message| - 1;
      var p := message[..n];
      var c := message[n];
      assert forall i :: 0 <= i < |p| ==> p[i] == message[i];
      DecodeCodeList(p);
      var code := Table([c]).value;
      KeyOfTable([c]);
      DecodeCodesSnoc(CodeList(p), code, p, [c]);
      CodeListSnoc(message);
      assert p + [c] == message;
    }
  }

  /** Decoding undoes encoding for every message of table characters other
      than the space. */
  lemma DecodeEncode(message: string)
    requires forall i :: 0 <= i < |message| ==> IsKeyChar(message[i]) && message[i] != ' '
    ensures Encode(message).Ok?
    ensures Decode(Encode(message).value) == Ok(message)
  {
    forall i | 0 <= i < |message| ensures Table([message[i]]).Some? {
      KeyChars(message[i]);
    }
    EncodeJoinsCodes(message);
    var codes := CodeList(message);
    forall k | 0 <= k < |codes| ensures IsWord(codes[k]) {
      TableCodes([message[k]]);
    }
    SplitJoinWords(codes);
    DecodeCodeList(message);
  }

  /** A space encodes to a space, which reads back as nothing. */
  lemma DecodeDropsSpace()
    ensures Encode(" ") == Ok(" ")
    ensures Decode(" ") == Ok("")
  {
  }

  /** Encoding keeps a space: its code `' '` between the two separators
      gives three spaces in a row. */
  lemma EncodeKeepsSpace()
    ensures Encode("A B") == Ok(".-   -...")
  {
    var message := "A B";
    assert message[0] == 'A' && message[1] == ' ' && message[2] == 'B';
    EncodeThree(message, ".-", " ", "-...");
    assert ".-" + " " + " " + " " + "-..." == ".-   -...";
  }
}
