// The form of meme_handler::prepare_create_request: splitting the body into fields, decoding
// them, and deciding what to do. Characters are bytes; a field is a C string in a buffer of
// fixed size.
module MemeForm {
  import opened Basics
  import opened Text

  // ---------------------------------------------------------------------------
  // Decoding a field

  function PlusToSpace(s: string): (r: string)
    ensures |r| == |s| && forall i :: 0 <= i < |s| ==> r[i] == if s[i] == '+' then ' ' else s[i]
  {
    seq(|s|, i requires 0 <= i < |s| => if s[i] == '+' then ' ' else s[i])
  }

  // The loop over a field's buffer.
  method ReplacePlus(buffer: array<char>)
    modifies buffer
    ensures buffer[..] == PlusToSpace(old(buffer[..]))
  {
    for i := 0 to buffer.Length
      invariant forall j :: 0 <= j < i ==> buffer[j] == if old(buffer[j]) == '+' then ' ' else old(buffer[j])
      invariant forall j :: i <= j < buffer.Length ==> buffer[j] == old(buffer[j])
    {
      if buffer[i] == '+' {
        buffer[i] := ' ';
      }
    }
  }

  predicate IsHex(c: char) { '0' <= c <= '9' || 'A' <= c <= 'F' || 'a' <= c <= 'f' }

  function HexValue(c: char): (n: nat)
    requires IsHex(c)
    ensures n < 16
  {
    if '0' <= c <= '9' then c as int - '0' as int
    else if 'A' <= c <= 'F' then c as int - 'A' as int + 10
    else c as int - 'a' as int + 10
  }

  // Percent-decoding: an escape that is not two hex digits stands for itself.
  function Unescape(s: string): string {
    if s == "" then ""
    else if |s| >= 3 && s[0] == '%' && IsHex(s[1]) && IsHex(s[2]) then
      [(16 * HexValue(s[1]) + HexValue(s[2])) as char] + Unescape(s[3..])
    else [s[0]] + Unescape(s[1..])
  }

  // The sixteen digits, in either case, and what an escape of two of them stands for; anything
  // else, a '%' without them included, stands for itself.
  lemma EscapesMean(h: nat, l: nat, c: char, s: string)
    requires h < 16 && l < 16
    ensures var up, low := "0123456789ABCDEF", "0123456789abcdef";
            && Unescape(['%', up[h], up[l]] + s) == [(16 * h + l) as char] + Unescape(s)
            && Unescape(['%', low[h], low[l]] + s) == [(16 * h + l) as char] + Unescape(s)
            && Unescape(['%', up[h], low[l]] + s) == [(16 * h + l) as char] + Unescape(s)
            && Unescape(['%', low[h], up[l]] + s) == [(16 * h + l) as char] + Unescape(s)
    ensures c != '%' ==> Unescape([c] + s) == [c] + Unescape(s)
  {
    hide HexValue;
    var up, low := "0123456789ABCDEF", "0123456789abcdef";
    HexDigits(h);
    HexDigits(l);
    EscapeMeans(up[h], up[l], s);
    EscapeMeans(low[h], low[l], s);
    EscapeMeans(up[h], low[l], s);
    EscapeMeans(low[h], up[l], s);
    assert ([c] + s)[1..] == s;
  }

  lemma HexDigits(n: nat)
    requires n < 16
    ensures var up, low := "0123456789ABCDEF"[n], "0123456789abcdef"[n];
            IsHex(up) && IsHex(low) && HexValue(up) == n && HexValue(low) == n
  {
  }

  lemma EscapeMeans(h: char, l: char, s: string)
    requires IsHex(h) && IsHex(l)
    ensures Unescape(['%', h, l] + s) == [(16 * HexValue(h) + HexValue(l)) as char] + Unescape(s)
  {
    hide HexValue;
    assert (['%', h, l] + s)[3..] == s;
  }

  lemma NoEscape(c: char, d: char, s: string)
    requires c !in "0123456789abcdefABCDEF" || d !in "0123456789abcdefABCDEF"
    ensures Unescape(['%', c, d] + s) == "%" + Unescape([c, d] + s)
    ensures Unescape("%") == "%" && Unescape(['%', c]) == "%" + Unescape([c])
  {
    HexAre(c);
    HexAre(d);
    var t := ['%', c, d] + s;
    assert t[1..] == [c, d] + s && t[1] == c && t[2] == d;
    assert ['%', c][1..] == [c] && "%"[1..] == "";
  }

  lemma HexAre(c: char)
    ensures IsHex(c) <==> c in "0123456789abcdefABCDEF"
  {
    if IsHex(c) {
      var all := "0123456789abcdefABCDEF";
      var n := if '0' <= c <= '9' then c as int - '0' as int
               else if 'a' <= c <= 'f' then 10 + c as int - 'a' as int
               else 16 + c as int - 'A' as int;
      assert all[n] == c;
    }
  }

  // The text of a field: '+' goes before the escapes, and a NUL ends it.
  function FieldText(raw: string): string {
    Until('\0', Unescape(PlusToSpace(raw))).before
  }

  // ---------------------------------------------------------------------------
  // Splitting the body

  // One "tag%[^&]" of the scan: the tag, then at least one character up to the next '&'.
  function ScanField(tag: string, s: string): Option<(string, string)> {
    if !(tag <= s) then None
    else
      var value := Until('&', s[|tag|..]).before;
      if value == "" || |tag| + |value| > |s| then None else Some((value, s[|tag| + |value|..]))
  }

  datatype Fields = Fields(image: string, top: string, bottom: string, update: string)

  // A scan stops at the first field it does not find; the rest stay empty.
  function ScanFields(body: string, withUpdate: bool): Fields {
    match ScanField("image=", body)
    case None => Fields("", "", "", "")
    case Some((image, s1)) =>
      match ScanField("&top=", s1)
      case None => Fields(image, "", "", "")
      case Some((top, s2)) =>
        match ScanField("&bottom=", s2)
        case None => Fields(image, top, "", "")
        case Some((bottom, s3)) =>
          if !withUpdate then Fields(image, top, bottom, "")
          else
            match ScanField("&update=", s3)
            case None => Fields(image, top, bottom, "")
            case Some((update, _)) => Fields(image, top, bottom, update)
  }

  // sizeof(std::string): the handler gives every field a buffer of this many characters, the
  // last of them for the NUL.
  const BUFFER := 32

  predicate Fits(raw: string) { |raw| < BUFFER }

  predicate FieldsFit(f: Fields) { Fits(f.image) && Fits(f.top) && Fits(f.bottom) && Fits(f.update) }

  // Overrun: a field was written past the end of its buffer, and nothing is known.
  datatype Action = BadRequest | NewMeme(image: string, top: string, bottom: string)
                  | UpdateMeme(id: string, image: string, top: string, bottom: string) | Overrun

  function Decide(body: string): Action {
    var f := ScanFields(body, Find(body, "&update=") != -1);
    if !FieldsFit(f) then Overrun
    else Judge(FieldText(f.image), FieldText(f.top), FieldText(f.bottom), f.update)
  }

  function Judge(image: string, top: string, bottom: string, update: string): Action {
    if image == "Choose..." || image == "" || top == "" || bottom == "" then BadRequest
    else if update == "" then NewMeme(image, top, bottom)
    else UpdateMeme(update, image, top, bottom)
  }

  // ---------------------------------------------------------------------------
  // What is accepted

  predicate IsRaw(s: string) { s != "" && '&' !in s }

  // A field ends at the end of the body or at an '&'.
  predicate IsTail(s: string) { s == "" || s[0] == '&' }

  predicate IsForm(body: string, image: string, top: string, bottom: string, rest: string) {
    && IsRaw(image) && IsRaw(top) && IsRaw(bottom) && IsTail(rest)
    && body == "image=" + image + "&top=" + top + "&bottom=" + bottom + rest
  }

  lemma ScanFieldFinds(tag: string, value: string, rest: string)
    requires '&' !in value && IsTail(rest)
    ensures ScanField(tag, tag + value + rest) == if value == "" then None else Some((value, rest))
  {
    var s := tag + value + rest;
    assert s[|tag|..] == value + rest;
    UntilTail(value, rest);
    assert s[|tag| + |value|..] == rest;
  }

  lemma UntilTail(value: string, rest: string)
    requires '&' !in value && IsTail(rest)
    ensures Until('&', value + rest).before == value
  {
    if rest == "" {
      assert value + rest == value;
      UntilSplits('&', value);
    } else {
      assert value + rest == value + ['&'] + rest[1..];
      UntilFinds('&', value, rest[1..]);
    }
  }

  lemma ScanFieldSplits(tag: string, s: string)
    requires ScanField(tag, s).Some?
    ensures var (value, rest) := ScanField(tag, s).value;
            IsRaw(value) && IsTail(rest) && s == tag + value + rest
  {
    var u := s[|tag|..];
    var k := Until('&', u);
    UntilSplits('&', u);
    var n := |tag| + |k.before|;
    assert s == tag + u;
    assert s[n..] == u[|k.before|..];
    assert s == tag + k.before + s[n..];
  }

  // The id to update that follows the three fields, if any.
  function UpdateOf(rest: string): string {
    match ScanField("&update=", rest)
    case None => ""
    case Some((id, _)) => id
  }

  // The fields of a body that has the three of them, whatever follows.
  lemma ScanReadsForm(body: string, image: string, top: string, bottom: string, rest: string)
    requires IsForm(body, image, top, bottom, rest)
    ensures ScanFields(body, Find(body, "&update=") != -1) == Fields(image, top, bottom, UpdateOf(rest))
  {
    hide ScanField, Find;
    var s2 := "&bottom=" + bottom + rest;
    var s1 := "&top=" + top + s2;
    assert body == "image=" + image + s1;
    ScanFieldFinds("image=", image, s1);
    ScanFieldFinds("&top=", top, s2);
    ScanFieldFinds("&bottom=", bottom, rest);
    if ScanField("&update=", rest).Some? {
      UpdateIsFound(body, rest);
    }
  }

  lemma UpdateIsFound(body: string, rest: string)
    requires |rest| <= |body| && body[|body| - |rest|..] == rest && ScanField("&update=", rest).Some?
    ensures Find(body, "&update=") != -1
  {
    hide Find;
    FindIsFirst(body, "&update=");
    assert "&update=" <= body[|body| - |rest|..];
  }

  lemma ScanFindsForm(body: string, withUpdate: bool) returns (rest: string)
    requires ScanFields(body, withUpdate).bottom != ""
    ensures var f := ScanFields(body, withUpdate); IsForm(body, f.image, f.top, f.bottom, rest)
  {
    hide ScanField;
    ScanFieldSplits("image=", body);
    var (image, s1) := ScanField("image=", body).value;
    ScanFieldSplits("&top=", s1);
    var (top, s2) := ScanField("&top=", s1).value;
    ScanFieldSplits("&bottom=", s2);
    var (bottom, s3) := ScanField("&bottom=", s2).value;
    rest := s3;
    assert body == "image=" + image + "&top=" + top + "&bottom=" + bottom + rest;
  }

  predicate IsGoodForm(body: string, image: string, top: string, bottom: string, rest: string) {
    && IsForm(body, image, top, bottom, rest)
    && FieldsFit(Fields(image, top, bottom, UpdateOf(rest)))
    && FieldText(image) != "" && FieldText(image) != "Choose..."
    && FieldText(top) != "" && FieldText(bottom) != ""
  }

  lemma EmptyFieldText()
    ensures FieldText("") == ""
  {
    assert PlusToSpace("") == "";
  }

  // What becomes of a body that has the three fields.
  lemma FormIsDecided(body: string, image: string, top: string, bottom: string, rest: string)
    requires IsForm(body, image, top, bottom, rest)
    ensures Decide(body) ==
              if !FieldsFit(Fields(image, top, bottom, UpdateOf(rest))) then Overrun
              else Judge(FieldText(image), FieldText(top), FieldText(bottom), UpdateOf(rest))
  {
    hide ScanFields, Find, FieldText, IsForm;
    ScanReadsForm(body, image, top, bottom, rest);
  }

  // A body makes or changes a meme exactly when it has the three fields, in order, with texts
  // that are not empty, a picture that has been chosen, and no field too long for its buffer.
  lemma FormIsAcceptedIff(body: string)
    ensures Decide(body).NewMeme? || Decide(body).UpdateMeme? <==>
              exists image, top, bottom, rest :: IsGoodForm(body, image, top, bottom, rest)
  {
    hide ScanField, FieldText, Find, IsForm, Fits;
    var withUpdate := Find(body, "&update=") != -1;
    var f := ScanFields(body, withUpdate);
    EmptyFieldText();
    if Decide(body).NewMeme? || Decide(body).UpdateMeme? {
      var rest := ScanFindsForm(body, withUpdate);
      ScanReadsForm(body, f.image, f.top, f.bottom, rest);
      assert IsGoodForm(body, f.image, f.top, f.bottom, rest);
    }
    if image, top, bottom, rest :| IsGoodForm(body, image, top, bottom, rest) {
      FormIsDecided(body, image, top, bottom, rest);
    }
  }

  // A body with an empty field is refused, whichever field it is, unless a field that is read
  // before the empty one overruns its buffer.
  lemma EmptyFieldIsRefused(image: string, top: string, bottom: string, rest: string)
    requires '&' !in image && '&' !in top && '&' !in bottom && IsTail(rest)
    requires image == "" || top == "" || bottom == ""
    ensures var fits := image == "" || (Fits(image) && (top == "" || Fits(top)));
            Decide("image=" + image + "&top=" + top + "&bottom=" + bottom + rest) ==
              if fits then BadRequest else Overrun
  {
    hide ScanField, FieldText, Find;
    var s2 := "&bottom=" + bottom + rest;
    var s1 := "&top=" + top + s2;
    var body := "image=" + image + "&top=" + top + "&bottom=" + bottom + rest;
    assert body == "image=" + image + s1;
    ScanFieldFinds("image=", image, s1);
    ScanFieldFinds("&top=", top, s2);
    ScanFieldFinds("&bottom=", bottom, rest);
    EmptyFieldText();
  }

  // The entry that stands for no picture is refused like an empty field.
  lemma UnchosenIsRefused(top: string, bottom: string)
    requires IsRaw(top) && IsRaw(bottom) && |top| <= 31 && |bottom| <= 31
    ensures Decide("image=Choose...&top=" + top + "&bottom=" + bottom) == BadRequest
  {
    hide ScanFields, Find, IsForm;
    var body := "image=Choose...&top=" + top + "&bottom=" + bottom;
    assert body == "image=" + "Choose..." + "&top=" + top + "&bottom=" + bottom + "";
    assert IsForm(body, "Choose...", top, bottom, "") by { IsFormNow(body, top, bottom); }
    FormIsDecided(body, "Choose...", top, bottom, "");
    ChooseIsPlain();
    NoUpdateAtEnd();
  }

  lemma IsFormNow(body: string, top: string, bottom: string)
    requires IsRaw(top) && IsRaw(bottom)
    requires body == "image=" + "Choose..." + "&top=" + top + "&bottom=" + bottom + ""
    ensures IsForm(body, "Choose...", top, bottom, "")
  {
  }

  lemma ChooseIsPlain()
    ensures FieldText("Choose...") == "Choose..."
  {
    hide Unescape;
    var s := "Choose...";
    assert PlusToSpace(s) == s;
    NoPercent(s);
    UntilSplits('\0', s);
  }

  lemma {:induction false} NoPercent(s: string)
    requires '%' !in s
    ensures Unescape(s) == s
  {
    if s != "" {
      NoPercent(s[1..]);
      assert s == [s[0]] + s[1..];
    }
  }

  // ---------------------------------------------------------------------------
  // Form encoding and the round trip

  predicate IsUnreserved(c: char) {
    'A' <= c <= 'Z' || 'a' <= c <= 'z' || '0' <= c <= '9' || c == '-' || c == '.' || c == '_' || c == '*'
  }

  function HexDigit(n: nat): (c: char)
    requires n < 16
    ensures IsHex(c) && HexValue(c) == n
  {
    if n < 10 then ('0' as int + n) as char else ('A' as int + n - 10) as char
  }

  predicate IsByte(c: char) { 0 < c as int < 256 }

  predicate IsText(s: string) { s != "" && forall i :: 0 <= i < |s| ==> IsByte(s[i]) }

  // How a browser writes one byte of a form field.
  function EncodeChar(c: char): string
    requires IsByte(c)
  {
    if c == ' ' then "+"
    else if IsUnreserved(c) then [c]
    else ['%', HexDigit(c as int / 16), HexDigit(c as int % 16)]
  }

  // Letters, digits and four marks stand for themselves, a space is a plus, and every other byte
  // is an escape of two upper-case digits.
  lemma EncodedCharIs(c: char)
    requires 0 < c as int < 256
    ensures 'A' <= c <= 'Z' || 'a' <= c <= 'z' || '0' <= c <= '9' || c in {'-', '.', '_', '*'} ==> EncodeChar(c) == [c]
    ensures c == ' ' ==> EncodeChar(c) == "+"
    ensures !('A' <= c <= 'Z' || 'a' <= c <= 'z' || '0' <= c <= '9' || c in {'-', '.', '_', '*', ' '}) ==>
              EncodeChar(c) == ['%', "0123456789ABCDEF"[c as int / 16], "0123456789ABCDEF"[c as int % 16]]
  {
    HexDigitIs(c as int / 16);
    HexDigitIs(c as int % 16);
  }

  lemma HexDigitIs(n: nat)
    requires n < 16
    ensures HexDigit(n) == "0123456789ABCDEF"[n]
  {
  }

  function Encode(s: string): string
    requires forall i :: 0 <= i < |s| ==> IsByte(s[i])
  {
    if s == "" then "" else EncodeChar(s[0]) + Encode(s[1..])
  }

  lemma EncodeCharIsPlain(c: char)
    requires IsByte(c)
    ensures var e := EncodeChar(c); e != "" && '&' !in e
  {
  }

  lemma PlusToSpaceAdd(a: string, b: string)
    ensures PlusToSpace(a + b) == PlusToSpace(a) + PlusToSpace(b)
  {
  }

  lemma UnescapeChar(c: char, s: string)
    requires IsByte(c)
    ensures Unescape(PlusToSpace(EncodeChar(c)) + s) == [c] + Unescape(s)
  {
    var e := PlusToSpace(EncodeChar(c));
    if c == ' ' {
      assert e == " ";
      assert (e + s)[1..] == s;
    } else if IsUnreserved(c) {
      assert e == [c];
      assert (e + s)[1..] == s;
    } else {
      var h, l := HexDigit(c as int / 16), HexDigit(c as int % 16);
      assert e == ['%', h, l];
      assert (e + s)[3..] == s;
    }
  }

  lemma {:induction false} EncodeIsUndone(s: string)
    requires forall i :: 0 <= i < |s| ==> IsByte(s[i])
    ensures Unescape(PlusToSpace(Encode(s))) == s
    ensures '&' !in Encode(s) && (s != "" ==> Encode(s) != "")
  {
    hide EncodeChar, Unescape, IsByte, PlusToSpace;
    if s == "" {
      EmptyUnescape();
    } else {
      EncodeIsUndone(s[1..]);
      EncodeCharIsPlain(s[0]);
      PlusToSpaceAdd(EncodeChar(s[0]), Encode(s[1..]));
      UnescapeChar(s[0], PlusToSpace(Encode(s[1..])));
      assert s == [s[0]] + s[1..];
    }
  }

  lemma EmptyUnescape()
    ensures Unescape(PlusToSpace("")) == ""
  {
    assert PlusToSpace("") == "";
  }

  lemma FieldRoundTrip(s: string)
    requires IsText(s)
    ensures FieldText(Encode(s)) == s && IsRaw(Encode(s))
  {
    hide Unescape, Encode, PlusToSpace;
    EncodeIsUndone(s);
    assert '\0' !in s;
    UntilSplits('\0', s);
  }

  // An encoded NUL ends the text, whatever follows.
  lemma NulEndsTheField(s: string, more: string)
    requires IsText(s)
    ensures FieldText(Encode(s) + "%00" + more) == s
  {
    hide Unescape, Encode, PlusToSpace;
    EncodeIsUndone(s);
    PlusToSpaceAdd(Encode(s) + "%00", more);
    PlusToSpaceAdd(Encode(s), "%00");
    assert PlusToSpace("%00") == "%00";
    UnescapeEncoded(s, "%00" + PlusToSpace(more));
    assert PlusToSpace(Encode(s) + "%00" + more) == PlusToSpace(Encode(s)) + ("%00" + PlusToSpace(more));
    NulEscape(PlusToSpace(more));
    assert '\0' !in s;
    UntilFinds('\0', s, Unescape(PlusToSpace(more)));
    assert s + ("\0" + Unescape(PlusToSpace(more))) == s + ['\0'] + Unescape(PlusToSpace(more));
  }

  lemma NulEscape(more: string)
    ensures Unescape("%00" + more) == "\0" + Unescape(more)
  {
    assert ("%00" + more)[3..] == more;
    assert HexValue('0') == 0;
  }

  lemma {:induction false} UnescapeEncoded(s: string, more: string)
    requires forall i :: 0 <= i < |s| ==> IsByte(s[i])
    ensures Unescape(PlusToSpace(Encode(s)) + more) == s + Unescape(more)
  {
    hide EncodeChar, Unescape, IsByte, PlusToSpace;
    if s == "" {
      EmptyUnescape();
      assert PlusToSpace(Encode(s)) + more == more by { assert |PlusToSpace("")| == 0; }
      assert s + Unescape(more) == Unescape(more);
    } else {
      var front, rest := PlusToSpace(EncodeChar(s[0])), PlusToSpace(Encode(s[1..]));
      UnescapeEncoded(s[1..], more);
      PlusToSpaceAdd(EncodeChar(s[0]), Encode(s[1..]));
      UnescapeChar(s[0], rest + more);
      assert PlusToSpace(Encode(s)) + more == front + (rest + more);
      assert s + Unescape(more) == [s[0]] + (s[1..] + Unescape(more));
    }
  }

  function FormBody(image: string, top: string, bottom: string): string
    requires IsText(image) && IsText(top) && IsText(bottom)
  {
    "image=" + Encode(image) + "&top=" + Encode(top) + "&bottom=" + Encode(bottom)
  }

  // The three texts, as a browser writes them, fit the handler's buffers.
  predicate TextsFit(image: string, top: string, bottom: string)
    requires IsText(image) && IsText(top) && IsText(bottom)
  {
    Fits(Encode(image)) && Fits(Encode(top)) && Fits(Encode(bottom))
  }

  // A byte is written as at most three characters.
  lemma {:induction false} EncodeLength(s: string)
    requires forall i :: 0 <= i < |s| ==> IsByte(s[i])
    ensures |Encode(s)| <= 3 * |s|
  {
    if s != "" {
      EncodeLength(s[1..]);
    }
  }

  // Texts of at most ten characters always fit.
  lemma ShortTextsFit(image: string, top: string, bottom: string)
    requires IsText(image) && IsText(top) && IsText(bottom)
    requires |image| <= 10 && |top| <= 10 && |bottom| <= 10
    ensures TextsFit(image, top, bottom)
  {
    hide Encode;
    EncodeLength(image);
    EncodeLength(top);
    EncodeLength(bottom);
  }

  // The texts typed into the form are the texts of the new meme exactly when they fit.
  lemma NewMemeRoundTrip(image: string, top: string, bottom: string)
    requires IsText(image) && IsText(top) && IsText(bottom) && image != "Choose..."
    ensures Decide(FormBody(image, top, bottom)) ==
              if TextsFit(image, top, bottom) then NewMeme(image, top, bottom) else Overrun
    ensures TextsFit(image, top, bottom) <==> |Encode(image)| <= 31 && |Encode(top)| <= 31 && |Encode(bottom)| <= 31
  {
    hide Decide, FieldText, Encode, UpdateOf, Fits;
    var body := FormBody(image, top, bottom);
    FitsMeans(Encode(image));
    FitsMeans(Encode(top));
    FitsMeans(Encode(bottom));
    FieldRoundTrip(image);
    FieldRoundTrip(top);
    FieldRoundTrip(bottom);
    assert body == "image=" + Encode(image) + "&top=" + Encode(top) + "&bottom=" + Encode(bottom) + "";
    FormIsDecided(body, Encode(image), Encode(top), Encode(bottom), "");
    NoUpdateAtEnd();
  }

  // Thirty-one characters fit a buffer, thirty-two do not.
  lemma FitsMeans(raw: string)
    ensures Fits(raw) <==> |raw| <= 31
  {
  }

  lemma NoUpdateAtEnd()
    ensures UpdateOf("") == "" && Fits("")
  {
  }

  // With an id to update, the row of that id gets the texts, exactly when all four fit.
  lemma UpdateMemeRoundTrip(image: string, top: string, bottom: string, id: string)
    requires IsText(image) && IsText(top) && IsText(bottom) && image != "Choose..."
    requires IsRaw(id)
    ensures Decide(FormBody(image, top, bottom) + "&update=" + id) ==
              if TextsFit(image, top, bottom) && |id| <= 31 then UpdateMeme(id, image, top, bottom) else Overrun
  {
    hide Decide, ScanField, FieldText, Encode, Fits;
    var rest := "&update=" + id;
    var body := FormBody(image, top, bottom) + "&update=" + id;
    FitsMeans(id);
    FieldRoundTrip(image);
    FieldRoundTrip(top);
    FieldRoundTrip(bottom);
    assert body == "image=" + Encode(image) + "&top=" + Encode(top) + "&bottom=" + Encode(bottom) + rest;
    FormIsDecided(body, Encode(image), Encode(top), Encode(bottom), rest);
    assert rest == "&update=" + id + "";
    ScanFieldFinds("&update=", id, "");
  }
}
