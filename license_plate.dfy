/**
  Plate-text normalisation and the regional plate grammar (util.py).

  A plate reads `R`, two letters, three digits, one letter (7 characters),
  optionally followed by one more letter (8 characters). OCR output is
  repaired position by position with two confusion tables.
  Characters are modelled over ASCII only.
 */
module LicensePlate {
  import opened Wrappers

  predicate IsUpper(c: char) { 'A' <= c <= 'Z' }

  predicate IsDigit(c: char) { '0' <= c <= '9' }

  /** Letters that OCR confuses with digits, mapped to that digit. */
  const CharToInt: map<char, char> :=
    map['O' := '0', 'I' := '1', 'J' := '3', 'A' := '4', 'G' := '6', 'S' := '5', 'B' := '8', 'Z' := '2']

  /** Digits that OCR confuses with letters, mapped to that letter. */
  const IntToChar: map<char, char> :=
    map['0' := 'C', '1' := 'I', '3' := 'J', '4' := 'A', '6' := 'G', '5' := 'S', '8' := 'B', '2' := 'Z']

  /**
    The grammar check `license_complies_format`. Only 7- and 8-character
    texts starting with 'R' can pass, and an 8-character plate is a
    7-character plate followed by one more letter.
   */
  predicate CompliesFormat(text: string)
    ensures CompliesFormat(text) ==> (|text| == 7 || |text| == 8) && text[0] == 'R'
  {
    if |text| == 7 then
      text[0] == 'R' && IsUpper(text[1]) && IsUpper(text[2]) &&
      IsDigit(text[3]) && IsDigit(text[4]) && IsDigit(text[5]) &&
      IsUpper(text[6])
    else if |text| == 8 then
      text[0] == 'R' && IsUpper(text[1]) && IsUpper(text[2]) &&
      IsDigit(text[3]) && IsDigit(text[4]) && IsDigit(text[5]) &&
      IsUpper(text[6]) && IsUpper(text[7])
    else
      false
  }

  /** An 8-character plate is a 7-character plate followed by one more letter. */
  lemma LongPlateExtendsShort(text: string)
    requires |text| == 8
    ensures CompliesFormat(text) <==> CompliesFormat(text[..7]) && IsUpper(text[7])
  {
  }

  /** The character class the grammar asks for at position `i`. */
  predicate FitsPosition(i: nat, c: char) {
    if i == 0 then c == 'R'
    else if 3 <= i <= 5 then IsDigit(c)
    else IsUpper(c)
  }

  /** The grammar restated as one class per position. */
  lemma CompliesFormatByPosition(text: string)
    ensures CompliesFormat(text) <==>
      (|text| == 7 || |text| == 8) && forall i :: 0 <= i < |text| ==> FitsPosition(i, text[i])
  {
  }

  /** Repair at a letter position: table digits become letters, letters stay, anything else is 'A'. */
  function FixLetter(c: char): (r: char)
    ensures IsUpper(r)
    ensures r == c <==> IsUpper(c)
    ensures c in IntToChar ==> r == IntToChar[c]
    ensures c !in IntToChar && !IsUpper(c) ==> r == 'A'
  {
    if c in IntToChar then IntToChar[c]
    else if IsUpper(c) then c
    else 'A'
  }

  /** Repair at a digit position: table letters become digits, digits stay, anything else is '0'. */
  function FixDigit(c: char): (r: char)
    ensures IsDigit(r)
    ensures r == c <==> IsDigit(c)
    ensures c in CharToInt ==> r == CharToInt[c]
    ensures c !in CharToInt && !IsDigit(c) ==> r == '0'
  {
    if c in CharToInt then CharToInt[c]
    else if IsDigit(c) then c
    else '0'
  }

  /** Repair at the last position: 'O' is read as 'C' before the letter rule applies. */
  function FixLast(c: char): (r: char)
    ensures IsUpper(r) && r != 'O'
    ensures r == c <==> IsUpper(c) && c != 'O'
    ensures c == 'O' ==> r == 'C'
    ensures c != 'O' ==> r == FixLetter(c)
  {
    if c == 'O' then 'C' else FixLetter(c)
  }

  /** The repair `format_license` applies at position `i`. */
  function FixAt(i: nat, c: char): char {
    if i == 0 then 'R'
    else if i <= 2 then FixLetter(c)
    else if i <= 5 then FixDigit(c)
    else FixLast(c)
  }

  /**
    What `format_license` returns, position by position: positions 0..5
    always, position 6 when the text has one; anything after it is dropped.
   */
  function Formatted(text: string): (r: string)
    requires |text| >= 6
  {
    seq(if |text| > 6 then 7 else 6, i requires 0 <= i < |text| => FixAt(i, text[i]))
  }

  /** `format_license`: builds the plate by appending one repaired character at a time. */
  method FormatLicense(text: string) returns (plate: string)
    requires |text| >= 6
    ensures plate == Formatted(text)
  {
    ghost var want := Formatted(text);
    plate := "R";
    for j := 1 to 3
      invariant plate == want[..j]
    {
      if text[j] in IntToChar {
        plate := plate + [IntToChar[text[j]]];
      } else if IsUpper(text[j]) {
        plate := plate + [text[j]];
      } else {
        plate := plate + "A";
      }
    }
    for j := 3 to 6
      invariant plate == want[..j]
    {
      if text[j] in CharToInt {
        plate := plate + [CharToInt[text[j]]];
      } else if IsDigit(text[j]) {
        plate := plate + [text[j]];
      } else {
        plate := plate + "0";
      }
    }
    if |text| > 6 {
      if text[6] == 'O' {
        plate := plate + "C";
      } else if text[6] in IntToChar {
        plate := plate + [IntToChar[text[6]]];
      } else if IsUpper(text[6]) {
        plate := plate + [text[6]];
      } else {
        plate := plate + "A";
      }
    }
  }

  /** Every text of at least 7 characters is repaired into a compliant 7-character plate not ending in 'O'. */
  lemma FormattedComplies(text: string)
    requires |text| >= 7
    ensures |Formatted(text)| == 7
    ensures CompliesFormat(Formatted(text))
    ensures Formatted(text)[6] != 'O'
  {
  }

  /** Repairing a repaired text changes nothing. */
  lemma FormattedIdempotent(text: string)
    requires |text| >= 6
    ensures Formatted(Formatted(text)) == Formatted(text)
  {
  }

  /** The repair leaves a text unchanged exactly when it is a compliant 7-character plate not ending in 'O'. */
  lemma FormattedFixedPoints(text: string)
    requires |text| >= 7
    ensures Formatted(text) == text <==> |text| == 7 && CompliesFormat(text) && text[6] != 'O'
  {
  }

  /** The digit '8' read at a letter position is repaired to 'B'. */
  lemma FormattedExample()
    ensures Formatted("RA8123C") == "RAB123C"
  {
  }

  /** Python's `str.upper` on one ASCII character. */
  function ToUpper(c: char): char {
    if 'a' <= c <= 'z' then (c as int - 32) as char else c
  }

  /** `text.upper().replace(' ', '')`. */
  function Clean(s: string): (r: string)
    ensures |r| <= |s|
    ensures forall i :: 0 <= i < |r| ==> r[i] != ' ' && !('a' <= r[i] <= 'z')
    ensures (forall i :: 0 <= i < |s| ==> s[i] != ' ') ==> |r| == |s|
  {
    if s == [] then []
    else (if s[0] == ' ' then [] else [ToUpper(s[0])]) + Clean(s[1..])
  }

  /** Cleaning works character by character: it distributes over concatenation. */
  lemma {:induction false} CleanAppend(a: string, b: string)
    ensures Clean(a + b) == Clean(a) + Clean(b)
  {
    if a == [] {
      assert a + b == b;
    } else {
      var head := if a[0] == ' ' then [] else [ToUpper(a[0])];
      CleanAppend(a[1..], b);
      assert (a + b)[0] == a[0];
      assert (a + b)[1..] == a[1..] + b;
      calc {
        Clean(a + b);
        head + Clean(a[1..] + b);
        head + (Clean(a[1..]) + Clean(b));
        (head + Clean(a[1..])) + Clean(b);
        Clean(a) + Clean(b);
      }
    }
  }

  /** Cleaning an already cleaned text changes nothing. */
  lemma {:induction false} CleanIdempotent(s: string)
    ensures Clean(Clean(s)) == Clean(s)
  {
    if s != [] {
      var head := if s[0] == ' ' then [] else [ToUpper(s[0])];
      CleanIdempotent(s[1..]);
      CleanAppend(head, Clean(s[1..]));
      if head != [] {
        assert Clean(head) == [ToUpper(head[0])] + Clean(head[1..]);
        assert head[1..] == [];
      }
    }
  }

  /** One OCR result: recognised text and its confidence. The box is not used by the core. */
  datatype Candidate = Candidate(text: string, score: real)

  /** A plate read: normalised text and the confidence of the candidate it came from. */
  datatype Read = Read(plate: string, score: real)

  /** A candidate is long enough to be normalised. */
  predicate Usable(c: Candidate) {
    |Clean(c.text)| >= 7
  }

  /** What `read_license_plate` returns for a list of OCR candidates, in their order. */
  function FirstRead(candidates: seq<Candidate>): Option<Read> {
    if candidates == [] then None
    else
      var text := Clean(candidates[0].text);
      if |text| >= 7 && CompliesFormat(Formatted(text)) then
        Some(Read(Formatted(text), candidates[0].score))
      else
        FirstRead(candidates[1..])
  }

  /**
    The grammar check after the repair never rejects: a plate is read from the
    first candidate whose cleaned text has at least 7 characters, and there is
    none exactly when no candidate is that long.
   */
  lemma {:induction false} FirstReadIsFirstUsable(candidates: seq<Candidate>)
    ensures FirstRead(candidates).None? <==> forall i :: 0 <= i < |candidates| ==> !Usable(candidates[i])
    ensures FirstRead(candidates).Some? ==>
      exists k :: 0 <= k < |candidates| && Usable(candidates[k]) &&
        (forall i :: 0 <= i < k ==> !Usable(candidates[i])) &&
        FirstRead(candidates).value == Read(Formatted(Clean(candidates[k].text)), candidates[k].score)
    ensures FirstRead(candidates).Some? ==>
      |FirstRead(candidates).value.plate| == 7 && CompliesFormat(FirstRead(candidates).value.plate)
  {
    if candidates != [] {
      var text := Clean(candidates[0].text);
      if |text| >= 7 {
        FormattedComplies(text);
      } else {
        var rest := candidates[1..];
        FirstReadIsFirstUsable(rest);
        if FirstRead(rest).Some? {
          var k :| 0 <= k < |rest| && Usable(rest[k]) &&
            (forall i :: 0 <= i < k ==> !Usable(rest[i])) &&
            FirstRead(rest).value == Read(Formatted(Clean(rest[k].text)), rest[k].score);
          assert candidates[k + 1] == rest[k];
          forall i | 0 <= i < k + 1 ensures !Usable(candidates[i]) {
            if i > 0 {
              assert candidates[i] == rest[i - 1];
            }
          }
        } else {
          forall i | 0 <= i < |candidates| ensures !Usable(candidates[i]) {
            if i > 0 {
              assert candidates[i] == rest[i - 1];
            }
          }
        }
      }
    }
  }

  /** `read_license_plate`, with the OCR engine's output given as input. */
  method ReadLicensePlate(candidates: seq<Candidate>) returns (r: Option<Read>)
    ensures r == FirstRead(candidates)
  {
    for i := 0 to |candidates|
      invariant FirstRead(candidates) == FirstRead(candidates[i..])
    {
      assert candidates[i..][1..] == candidates[i + 1..];
      var text := Clean(candidates[i].text);
      if |text| >= 7 {
        var formatted := FormatLicense(text);
        if CompliesFormat(formatted) {
          return Some(Read(formatted, candidates[i].score));
        }
      }
    }
    return None;
  }
}
