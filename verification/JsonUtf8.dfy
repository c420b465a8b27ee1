// When a rendered JSON document is valid UTF-8, as a text frame of a WebSocket
// has to be: exactly when every string and key in it is.
module JsonUtf8 {
  import opened Bytes
  import opened Numbers
  import opened JsonText
  import opened JsonFields
  import opened Utf8

  /** Every string and key of the document is valid UTF-8. */
  predicate Clean(d: Doc) {
    match d
    case DStr(esc) => Valid(esc)
    case DInt(_) => true
    case DBool(_) => true
    case DArr(items) => forall k :: 0 <= k < |items| ==> Clean(items[k])
    case DObj(fields) => forall k :: 0 <= k < |fields| ==> CleanField(fields[k])
  }

  predicate CleanField(f: Field) {
    Valid(f.key) && Clean(f.doc)
  }

  predicate Ascii(s: string) {
    forall k :: 0 <= k < |s| ==> s[k] as int < 0x80
  }

  lemma {:induction false} Between(a: string, x: string, b: string)
    requires Ascii(a) && Ascii(b)
    ensures Valid(a + x + b) <==> Valid(x)
  {
    hide Valid;
    AsciiValid(b);
    ValidSplit(x, b);
    AsciiFront(a, x + b);
    assert a + x + b == a + (x + b);
  }

  /** Two parts that an ASCII separator keeps apart. */
  lemma {:induction false} Apart(x: string, sep: string, y: string)
    requires Ascii(sep) && sep != []
    ensures Valid(x + sep + y) <==> Valid(x) && Valid(y)
  {
    hide Valid;
    ValidSplit(x, sep + y);
    AsciiFront(sep, y);
    assert x + sep + y == x + (sep + y);
  }

  lemma {:induction false} QuotedValid(s: string)
    ensures Valid(Quoted(s)) <==> Valid(s)
  {
    hide Valid;
    Between("\"", s, "\"");
  }

  lemma NumberValid(v: int)
    ensures Valid(Signed(v))
  {
    hide Dec;
    DecRoundTrip(if v < 0 then -v else v);
    var d := Dec(if v < 0 then -v else v);
    assert forall k :: 0 <= k < |d| ==> IsDigit(d[k]);
    AsciiValid(Signed(v));
  }

  /** A reply is valid UTF-8 exactly when all it carries is. */
  lemma {:induction false} RenderValid(d: Doc)
    ensures Valid(Render(d)) <==> Clean(d)
    decreases d, 2
  {
    hide Valid, RenderItems, RenderFields;
    match d
    case DStr(esc) => QuotedValid(esc);
    case DInt(v) => NumberValid(v);
    case DBool(b) => AsciiValid(Render(d));
    case DArr(items) =>
      ItemsValid(items);
      Between("[", RenderItems(items), "]");
    case DObj(fields) =>
      FieldsValid(fields);
      Between("{", RenderFields(fields), "}");
  }

  lemma {:induction false} ItemsValid(items: seq<Doc>)
    ensures Valid(RenderItems(items)) <==> forall k :: 0 <= k < |items| ==> Clean(items[k])
    decreases items, 1
  {
    hide Valid, Render, Clean;
    if items == [] {
      AsciiValid([]);
    } else {
      RenderValid(items[0]);
      var rest := items[1..];
      assert forall k :: 1 <= k < |items| ==> items[k] == rest[k - 1];
      if |items| > 1 {
        ItemsValid(rest);
        Apart(Render(items[0]), ",", RenderItems(rest));
        assert forall k :: 0 <= k < |rest| ==> rest[k] == items[k + 1];
      }
    }
  }

  lemma {:induction false} FieldsValid(fields: seq<Field>)
    ensures Valid(RenderFields(fields)) <==> forall k :: 0 <= k < |fields| ==> CleanField(fields[k])
    decreases fields, 1
  {
    hide Valid, RenderField, CleanField;
    if fields == [] {
      AsciiValid([]);
    } else {
      FieldValid(fields[0]);
      var rest := fields[1..];
      assert forall k :: 1 <= k < |fields| ==> fields[k] == rest[k - 1];
      if |fields| > 1 {
        FieldsValid(rest);
        Apart(RenderField(fields[0]), ",", RenderFields(rest));
        assert forall k :: 0 <= k < |rest| ==> rest[k] == fields[k + 1];
      }
    }
  }

  lemma {:induction false} FieldValid(f: Field)
    ensures Valid(RenderField(f)) <==> CleanField(f)
    decreases f, 3
  {
    hide Valid, Render, Clean, Quoted;
    QuotedValid(f.key);
    RenderValid(f.doc);
    Apart(Quoted(f.key), ":", Render(f.doc));
  }

  /** The keys of the replies are ASCII, so only the values count. */
  lemma {:induction false} AsciiKey(key: string, d: Doc)
    requires Ascii(key)
    ensures CleanField(Field(key, d)) <==> Clean(d)
  {
    AsciiValid(key);
  }

  lemma IeeeValid(ieee: U64)
    ensures Valid(IeeeText(ieee))
  {
    hide Hex;
    HexRoundTrip(ieee, 16, true);
    var t := IeeeText(ieee);
    assert forall k :: 0 <= k < |t| ==> DigitValue(t[k]) >= 0 || t[k] == 'x';
    AsciiValid(t);
  }
}
