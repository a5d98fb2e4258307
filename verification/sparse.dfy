/** The "extract-if-present" setter that every extractor uses
    (`setPostKey` / `setThreadKey`), over sparse string records. */
module Sparse {
  import opened Wrappers
  import opened PyStr

  /** A sparse record: a key is present only when its field was extracted. */
  type Record = map<string, string>

  /** The source yields a field: it exists and its text is non-empty. The test
      is made on the text BEFORE any removal. */
  predicate Yields(source: Option<string>) {
    source.Some? && source.value != ""
  }

  /** Applies `text.replace(x, "")` for each `x` of `removals`, in order. */
  function RemoveAll(text: string, removals: seq<string>): string
    decreases |removals|
  {
    if |removals| == 0 then text
    else RemoveAll(ReplaceAll(text, removals[0], ""), removals[1..])
  }

  /** The setter: writes `rec[key]` with the cleaned text exactly when the
      source yields a field, and changes nothing else. */
  function SetKey(rec: Record, key: string, source: Option<string>, removals: seq<string>): (r: Record)
    ensures key in r <==> key in rec || Yields(source)
    ensures Yields(source) ==> r[key] == RemoveAll(source.value, removals)
    ensures !Yields(source) ==> r == rec
  {
    if Yields(source) then rec[key := RemoveAll(source.value, removals)] else rec
  }

  /** The setter touches no key but its own. */
  lemma SetKeyFrame(rec: Record, key: string, source: Option<string>, removals: seq<string>, other: string)
    requires other != key
    ensures other in SetKey(rec, key, source, removals) <==> other in rec
    ensures other in rec ==> SetKey(rec, key, source, removals)[other] == rec[other]
  {
  }

  /** Removing tabs and then newlines deletes exactly those two characters and
      keeps every other character in its order. */
  lemma RemoveTabsAndNewlines(text: string)
    ensures RemoveAll(text, ["\t", "\n"]) == Erase(Erase(text, '\t'), '\n')
    ensures '\t' !in RemoveAll(text, ["\t", "\n"]) && '\n' !in RemoveAll(text, ["\t", "\n"])
  {
    ReplaceCharIsErase(text, '\t');
    ReplaceCharIsErase(Erase(text, '\t'), '\n');
    EraseKeeps(text, '\t');
    EraseKeeps(Erase(text, '\t'), '\n');
  }

  /** Removing newlines deletes exactly the newlines. */
  lemma RemoveNewlines(text: string)
    ensures RemoveAll(text, ["\n"]) == Erase(text, '\n')
    ensures '\n' !in RemoveAll(text, ["\n"])
  {
    ReplaceCharIsErase(text, '\n');
    EraseKeeps(text, '\n');
  }

  /** Because the emptiness test precedes the removals, a field can be stored
      holding the empty text: any label made only of newlines. */
  lemma SetKeyCanStoreEmpty(rec: Record, key: string, text: string)
    requires text != [] && forall k :: 0 <= k < |text| ==> text[k] == '\n'
    ensures SetKey(rec, key, Some(text), ["\n"]) == rec[key := ""]
  {
    RemoveNewlines(text);
    EraseOnly(text, '\n');
  }

  /** One call of the setter: the key, the source it reads, and the texts it
      removes. */
  datatype Field = Field(key: string, source: Option<string>, removals: seq<string>)

  predicate DistinctKeys(fields: seq<Field>) {
    forall i, j :: 0 <= i < j < |fields| ==> fields[i].key != fields[j].key
  }

  /** The fields carry the keys `keys`, in order. */
  predicate HasKeys(fields: seq<Field>, keys: seq<string>) {
    |keys| == |fields| && forall i :: 0 <= i < |fields| ==> fields[i].key == keys[i]
  }

  /** Fields whose key list has no repetition have distinct keys. */
  lemma DistinctKeysOf(fields: seq<Field>, keys: seq<string>)
    requires HasKeys(fields, keys)
    requires forall i, j :: 0 <= i < j < |keys| ==> keys[i] != keys[j]
    ensures DistinctKeys(fields)
  {
  }

  /** A fresh record after calling the setter once per field, in order: only
      the fields' keys can be present. */
  function Build(fields: seq<Field>): (r: Record)
    ensures forall k :: k in r ==> exists i :: 0 <= i < |fields| && fields[i].key == k
  {
    if |fields| == 0 then map[]
    else
      var init := fields[..|fields| - 1];
      assert forall i :: 0 <= i < |init| ==> init[i] == fields[i];
      SetKey(Build(init), fields[|fields| - 1].key, fields[|fields| - 1].source, fields[|fields| - 1].removals)
  }

  /** With distinct keys, each field's key is present exactly when its source
      yields a field, and then holds that source's cleaned text. */
  lemma {:induction false} BuildFields(fields: seq<Field>)
    requires DistinctKeys(fields)
    ensures var r := Build(fields);
      forall i :: 0 <= i < |fields| ==>
        && (fields[i].key in r <==> Yields(fields[i].source))
        && (Yields(fields[i].source) ==> r[fields[i].key] == RemoveAll(fields[i].source.value, fields[i].removals))
    decreases |fields|
  {
    if |fields| > 0 {
      var init := fields[..|fields| - 1];
      var last := fields[|fields| - 1];
      assert forall i :: 0 <= i < |init| ==> init[i] == fields[i];
      assert DistinctKeys(init);
      BuildFields(init);
      forall i | 0 <= i < |init|
        ensures fields[i].key != last.key
      {
        assert i < |fields| - 1;
      }
      forall i | 0 <= i < |init|
        ensures var r := Build(fields);
          && (fields[i].key in r <==> Yields(fields[i].source))
          && (Yields(fields[i].source) ==> r[fields[i].key] == RemoveAll(fields[i].source.value, fields[i].removals))
      {
        SetKeyFrame(Build(init), last.key, last.source, last.removals, fields[i].key);
      }
    }
  }
}
