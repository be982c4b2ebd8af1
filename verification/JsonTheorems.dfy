/** What the printer, parser, copy and comparison promise together, for trees in memory. */
module JsonTheorems {
  import opened Bytes
  import opened JsonValue
  import opened JsonItem
  import opened JsonTree
  import JsonCompare
  import D = JsonDocument
  import R = JsonReading
  import A = JsonAccepted
  import JsonRoundTrip
  import JsonGrammar
  import JsonText
  import JsonPrinter
  import JsonParser

  /** The strings of a well-formed tree are C strings, so only its numbers can keep it from being printable. */
  lemma ValidPrintable(item: Item)
    requires item.Valid() && Integers(item.value)
    ensures Printable(item.value)
    decreases item.Repr
  {
    if item.Container() {
      forall i | 0 <= i < |item.kids| ensures Printable(item.kids[i].value) {
        ChildFacts(item, i);
        ValidPrintable(item.kids[i]);
      }
      forall i | 0 <= i < |item.kids| && item.kind == Object ensures NulFree(item.value.members[i].key) {
        ChildFacts(item, i);
      }
    }
  }

  /**
   `cJSON_Print` followed by `cJSON_Parse`: a tree that prints at all parses back to the same value
   exactly when it is nested at most CJSON_NESTING_LIMIT deep.
   */
  method PrintAndParse(item: Item, format: bool, requireNul: bool) returns (printed: bool, parsed: Item?)
    requires item.Valid() && Integers(item.value)
    ensures printed == (|JsonText.Print(item.value, 0, format)| + 2 <= 0x7FFF_FFFF)
    ensures printed ==> (parsed != null) == (Nest(item.value) <= 1000)
    ensures parsed != null ==> parsed.Valid() && fresh(parsed.Repr) && parsed.value == item.value
  {
    hide JsonGrammar.ParseText, JsonText.Print, Integers, Nest, Item.Valid;
    var text := JsonPrinter.PrintText(item, format);
    if text == null { return false, null; }
    ValidPrintable(item);
    JsonRoundTrip.PrintParse(item.value, format, requireNul);
    var parseEnd;
    printed := true;
    parsed, parseEnd := JsonParser.ParseWithLengthOpts(text[..], requireNul);
  }

  /**
   `cJSON_ParseWithLengthOpts` of a document: a tree of the value the document denotes, or NULL exactly
   when the document is nested too deep, a required NUL is missing, or a byte order mark stands before
   a single byte. `parseEnd` is where the document ends, or the NUL when one is required.
   */
  method ParseDocument(bom: bool, lead: Bytes, d: D.Doc, trail: Bytes, requireNul: bool)
      returns (parsed: Item?, parseEnd: nat)
    requires D.WellFormed(d) && D.Blank(lead) && D.Blank(trail)
    ensures var s := R.Input(bom, lead, d, trail);
            (parsed == null) ==
              (Nest(D.Value(d)) > 1000 || (requireNul && !R.Terminated(trail))
                || (bom && |s| == 4))
    ensures parsed != null ==> parsed.Valid() && fresh(parsed.Repr) && parsed.value == D.Value(d)
    ensures parsed != null ==> parseEnd == |R.Input(bom, lead, d, trail)| - if requireNul then 1 else |trail|
  {
    hide JsonGrammar.ParseText, D.Text, D.Value, R.Input, R.Terminated, D.WellFormed, D.Blank, Nest, Item.Valid;
    R.DocumentParses(bom, lead, d, trail, requireNul);
    parsed, parseEnd := JsonParser.ParseWithLengthOpts(R.Input(bom, lead, d, trail), requireNul);
  }

  /**
   `cJSON_ParseWithLengthOpts` with the NUL required, on any buffer: a tree is returned exactly when
   the buffer holds a document that may be accepted, and it holds the value of that document.
   */
  method ParseExactly(s: Bytes) returns (parsed: Item?)
    ensures parsed != null <==> exists bom, lead, d, trail :: A.Acceptable(s, bom, lead, d, trail)
    ensures forall bom, lead, d, trail :: A.Acceptable(s, bom, lead, d, trail) ==>
            parsed != null && parsed.value == D.Value(d)
    ensures parsed != null ==> parsed.Valid() && fresh(parsed.Repr)
  {
    hide JsonGrammar.ParseText, D.Text, D.Value, R.Input, Nest, Item.Valid;
    var parseEnd;
    parsed, parseEnd := JsonParser.ParseWithLengthOpts(s, true);
    if parsed != null { A.AcceptedExactly(s, parsed.value, parseEnd); }
    forall bom, lead, d, trail | A.Acceptable(s, bom, lead, d, trail)
      ensures parsed != null && parsed.value == D.Value(d)
    {
      A.AcceptableParses(s, bom, lead, d, trail);
    }
  }

  /**
   `cJSON_Compare` on a tree and its `cJSON_Duplicate`: true whenever the tree is consistent, and on
   integer trees exactly then. Distinct keys make a tree consistent.
   */
  method DuplicateAndCompare(item: Item, sensitive: bool) returns (copied: bool, equal: bool)
    requires item.Valid()
    ensures copied == (Height(item.value) <= 10000)
    ensures copied && Integers(item.value) ==> (equal <==> JsonCompare.Consistent(item.value, sensitive))
    ensures copied && JsonCompare.Consistent(item.value, sensitive) ==> equal
    ensures copied && JsonCompare.DistinctKeys(item.value, sensitive) ==> equal
  {
    hide JsonCompare.Compare, JsonCompare.DistinctKeys, JsonCompare.Consistent, Height, Integers;
    var copy := Duplicate(item, 0, true);
    copied, equal := copy != null, false;
    if copied {
      JsonCompare.CompareOnCopy(item.value, sensitive);
      if JsonCompare.DistinctKeys(item.value, sensitive) { JsonCompare.DistinctIsConsistent(item.value, sensitive); }
      equal := Compare(item, copy, sensitive);
    }
  }
}
