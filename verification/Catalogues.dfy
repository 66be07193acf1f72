/** From the text of a catalogue to the messages that are found in the compiled file
    (scripts/compile_messages.py, the body of the loop in `main`). */
module Catalogues {
  import opened Outcomes
  import opened Utf8
  import opened MoFile
  import opened MoReader
  import opened PoFile
  import opened PoMeaning

  /** `parse_po` followed by `write_mo`.  A reader finds in the file, by binary search and by reading
      it all, exactly what the text says. */
  method CompileCatalogue(text: string) returns (r: Result<seq<byte>, MoError>, count: nat)
    ensures var meaning := Meaning(Lines(text), |Lines(text)|);
            && count == |meaning| && (r.Ok? <==> Fits(meaning))
            && (r.Ok? ==>
                  && Read(r.value) == Some(meaning)
                  && forall key :: Lookup(r.value, key) == if key in meaning then Some(meaning[key]) else None)
  {
    hide Read, Lookup, Compiled, Fits, Parsed, Meaning;
    ParsedIsMeaning(text);
    var entries := ParsePo(text);
    count := |entries|;
    r := WriteMo(entries);
    if r.Ok? {
      ReadsBack(entries);
      forall key ensures Lookup(r.value, key) == if key in entries then Some(entries[key]) else None {
        LookupIsRight(entries, key);
      }
    }
  }

  /** Any entries whose strings have no line breaks but line feeds can be written down as a text whose
      compiled file holds exactly these entries, as long as the file is not too large. */
  lemma EndToEnd(m: map<string, string>)
    requires PlainMap(m) && Fits(m)
    ensures Read(Compiled(Parsed(Printed(m)))) == Some(m)
  {
    ParsePrintedMap(m);
    ReadsBack(m);
  }
}
