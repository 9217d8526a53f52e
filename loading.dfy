/**
 * The clean-up a data file goes through when it is loaded: commas before a
 * closing brace or bracket are deleted, single quotes become double quotes,
 * and after parsing, the keys of every object in a top-level list are
 * lower-cased.
 */
module Loading {
  import opened Wrappers
  import Text
  import Assoc

  // ---------------------------------------------------------------- text passes

  /** `t` starts with whitespace followed by `closer`: what `\s*` then the closer match after a comma. */
  predicate ClosesAfterSpace(t: string, closer: char) {
    Text.SpacePrefix(t) < |t| && t[Text.SpacePrefix(t)] == closer
  }

  /**
   * `re.sub(r',\s*' + closer, closer, s)`: scanning left to right, each comma
   * followed by whitespace and `closer` is replaced, together with the
   * whitespace, by `closer`; scanning resumes after the replaced text.
   */
  function StripCommaBefore(s: string, closer: char): (r: string)
    ensures |r| <= |s|
    decreases |s|
  {
    if |s| == 0 then ""
    else if s[0] == ',' && ClosesAfterSpace(s[1..], closer) then
      var n := Text.SpacePrefix(s[1..]);
      [closer] + StripCommaBefore(s[n + 2..], closer)
    else [s[0]] + StripCommaBefore(s[1..], closer)
  }

  /** The characters that are neither commas nor whitespace, in order. */
  function Significant(s: string): (r: string)
    ensures |r| <= |s|
  {
    if |s| == 0 then ""
    else (if s[0] == ',' || Text.IsSpace(s[0]) then "" else [s[0]]) + Significant(s[1..])
  }

  lemma {:induction false} SignificantSpaces(t: string, n: nat)
    requires n <= |t| && forall i :: 0 <= i < n ==> Text.IsSpace(t[i])
    ensures Significant(t) == Significant(t[n..])
  {
    if n > 0 {
      assert t[1..][n - 1..] == t[n..];
      SignificantSpaces(t[1..], n - 1);
    }
  }

  /** The pass deletes only commas and whitespace: everything else survives, in order. */
  lemma {:induction false} StripKeepsSignificant(s: string, closer: char)
    requires closer != ',' && !Text.IsSpace(closer)
    ensures Significant(StripCommaBefore(s, closer)) == Significant(s)
    decreases |s|
  {
    if |s| == 0 {
    } else if s[0] == ',' && ClosesAfterSpace(s[1..], closer) {
      var t := s[1..];
      var n := Text.SpacePrefix(t);
      StripKeepsSignificant(s[n + 2..], closer);
      SignificantSpaces(t, n);
      assert t[n..] == [closer] + s[n + 2..];
      assert ([closer] + StripCommaBefore(s[n + 2..], closer))[1..] == StripCommaBefore(s[n + 2..], closer);
      assert ([closer] + s[n + 2..])[1..] == s[n + 2..];
    } else {
      StripKeepsSignificant(s[1..], closer);
      assert ([s[0]] + StripCommaBefore(s[1..], closer))[1..] == StripCommaBefore(s[1..], closer);
    }
  }

  /** Text without commas is left alone. */
  lemma {:induction false} StripNoComma(s: string, closer: char)
    requires ',' !in s
    ensures StripCommaBefore(s, closer) == s
    decreases |s|
  {
    if |s| > 0 {
      assert s == [s[0]] + s[1..];
      StripNoComma(s[1..], closer);
    }
  }

  /** `data.replace("'", '"')` */
  function ReplaceQuotes(s: string): (r: string)
    ensures |r| == |s|
    ensures forall i :: 0 <= i < |s| ==> r[i] == (if s[i] == '\'' then '"' else s[i])
    ensures '\'' !in r
  {
    if |s| == 0 then ""
    else [if s[0] == '\'' then '"' else s[0]] + ReplaceQuotes(s[1..])
  }

  /** The three text passes, in the order the loader applies them. */
  function Normalise(s: string): (r: string)
    ensures |r| <= |s|
    ensures '\'' !in r
  {
    ReplaceQuotes(StripCommaBefore(StripCommaBefore(s, '}'), ']'))
  }

  /** Text without commas or single quotes loads as written. */
  lemma NormaliseClean(s: string)
    requires ',' !in s && '\'' !in s
    ensures Normalise(s) == s
  {
    StripNoComma(s, '}');
    StripNoComma(s, ']');
  }

  /** Apart from quote replacement, loading only ever removes commas and whitespace. */
  lemma NormaliseKeepsSignificant(s: string)
    ensures Significant(StripCommaBefore(StripCommaBefore(s, '}'), ']')) == Significant(s)
  {
    StripKeepsSignificant(s, '}');
    StripKeepsSignificant(StripCommaBefore(s, '}'), ']');
  }

  /** A trailing comma before a closing brace goes, whitespace included. */
  lemma TrailingCommaExample(s: string)
    requires s == "{\"a\": 1,\n}"
    ensures StripCommaBefore(s, '}') == "{\"a\": 1}"
  {
    var tail := s[7..];
    assert tail == ",\n}";
    assert Text.SpacePrefix(tail[1..]) == 1;
    assert StripCommaBefore(tail, '}') == "}";
    assert s == "{\"a\": 1" + tail;
    PrefixWithoutComma("{\"a\": 1", tail, '}');
  }

  lemma {:induction false} PrefixWithoutComma(a: string, b: string, closer: char)
    requires ',' !in a
    ensures StripCommaBefore(a + b, closer) == a + StripCommaBefore(b, closer)
    decreases |a|
  {
    if |a| > 0 {
      assert (a + b)[0] == a[0] && (a + b)[1..] == a[1..] + b;
      assert a[0] != ',';
      PrefixWithoutComma(a[1..], b, closer);
      var rest := StripCommaBefore(b, closer);
      assert StripCommaBefore(a + b, closer) == [a[0]] + StripCommaBefore(a[1..] + b, closer);
      assert [a[0]] + (a[1..] + rest) == a + rest;
    } else {
      assert a + b == b;
    }
  }

  /** One pass is not idempotent: of two commas before a brace only the second goes. */
  lemma SinglePassExample(s: string)
    requires s == ", ,}"
    ensures StripCommaBefore(s, '}') == ", }"
    ensures StripCommaBefore(StripCommaBefore(s, '}'), '}') == "}"
  {
    assert Text.SpacePrefix(s[1..]) == 1;
    assert s[1..][1] == ',';
    assert s[2..] == ",}";
    assert Text.SpacePrefix(s[2..][1..]) == 0;
    assert StripCommaBefore(s[2..], '}') == "}";
    assert StripCommaBefore(s[1..], '}') == " }";
    var t := ", }";
    assert Text.SpacePrefix(t[1..]) == 1;
    assert t[3..] == "";
  }

  // ---------------------------------------------------------------- parsed values

  /**
   * A parsed JSON value; an object's fields are kept in order. A dict from
   * `json.loads` never repeats a key (the last value wins), and the model
   * agrees with the tracker's key lower-casing on objects whose keys are
   * distinct; on repeated keys `LowerKeys` may differ from it.
   */
  datatype Json =
    | JNull
    | JBool(b: bool)
    | JNumber(n: real)
    | JString(s: string)
    | JArray(items: seq<Json>)
    | JObject(fields: seq<(string, Json)>)

  /** The fields with their keys lower-cased, in order and with repeats. */
  function LowerAll(fields: seq<(string, Json)>): (r: seq<(string, Json)>)
    ensures |r| == |fields|
    ensures forall i :: 0 <= i < |fields| ==> r[i] == (Text.Lower(fields[i].0), fields[i].1)
  {
    seq(|fields|, i requires 0 <= i < |fields| => (Text.Lower(fields[i].0), fields[i].1))
  }

  /**
   * `{k.lower(): v for k, v in fields}`: one entry per lower-cased key, at
   * the position where that key first occurs.
   */
  function LowerKeys(fields: seq<(string, Json)>): (r: seq<(string, Json)>)
    ensures Assoc.DistinctKeys(r)
    ensures Assoc.Keys(r) == Assoc.FirstSeen(Assoc.Keys(LowerAll(fields)))
    ensures forall i :: 0 <= i < |r| ==> Text.IsLowerCase(r[i].0)
  {
    var r := Assoc.FromPairs(LowerAll(fields));
    LowerKeysLowerCase(fields, r);
    r
  }

  lemma LowerKeysLowerCase(fields: seq<(string, Json)>, r: seq<(string, Json)>)
    requires Assoc.Keys(r) == Assoc.FirstSeen(Assoc.Keys(LowerAll(fields)))
    ensures forall i :: 0 <= i < |r| ==> Text.IsLowerCase(r[i].0)
  {
    var ks := Assoc.Keys(LowerAll(fields));
    forall i | 0 <= i < |r|
      ensures Text.IsLowerCase(r[i].0)
    {
      assert Assoc.Keys(r)[i] == r[i].0;
      assert r[i].0 in ks;
      var j :| 0 <= j < |ks| && ks[j] == r[i].0;
      Text.LowerIsLowerCase(fields[j].0);
    }
  }

  /** A key is present exactly when some field's key lower-cases to it. */
  lemma LowerKeysPresence(fields: seq<(string, Json)>, k: string)
    ensures k in Assoc.Keys(LowerKeys(fields)) <==> exists i :: 0 <= i < |fields| && Text.Lower(fields[i].0) == k
  {
    var ks := Assoc.Keys(LowerAll(fields));
    if k in ks {
      var j :| 0 <= j < |ks| && ks[j] == k;
      assert Text.Lower(fields[j].0) == k;
    }
    if exists i :: 0 <= i < |fields| && Text.Lower(fields[i].0) == k {
      var i :| 0 <= i < |fields| && Text.Lower(fields[i].0) == k;
      assert ks[i] == k;
    }
  }

  /** When several keys lower-case alike, the last one's value is kept. */
  lemma LowerKeysLastWins(fields: seq<(string, Json)>, i: nat)
    requires i < |fields|
    requires forall j :: i < j < |fields| ==> Text.Lower(fields[j].0) != Text.Lower(fields[i].0)
    ensures Assoc.Get(LowerKeys(fields), Text.Lower(fields[i].0)) == Some(fields[i].1)
  {
    Assoc.FromPairsLastWins(LowerAll(fields), i);
  }

  /** Keys that are already lower-case and distinct come through unchanged. */
  lemma LowerKeysIdentity(fields: seq<(string, Json)>)
    requires Assoc.DistinctKeys(fields)
    requires forall i :: 0 <= i < |fields| ==> Text.IsLowerCase(fields[i].0)
    ensures LowerKeys(fields) == fields
  {
    forall i | 0 <= i < |fields|
      ensures LowerAll(fields)[i] == fields[i]
    {
      LowerOfLowerCase(fields[i].0);
    }
    assert LowerAll(fields) == fields;
    Assoc.FromPairsIdentity(fields);
  }

  lemma LowerOfLowerCase(s: string)
    requires Text.IsLowerCase(s)
    ensures Text.Lower(s) == s
  {
  }

  predicate AllObjects(items: seq<Json>) {
    forall i :: 0 <= i < |items| ==> items[i].JObject?
  }

  /** An object whose keys are distinct and already lower-case: what the loader makes of every list item. */
  predicate CanonicalObject(item: Json) {
    && item.JObject?
    && Assoc.DistinctKeys(item.fields)
    && forall k :: 0 <= k < |item.fields| ==> Text.IsLowerCase(item.fields[k].0)
  }

  /**
   * The list case of the loader: every item's keys lower-cased; an item
   * that is not an object makes the whole load fail.
   */
  function NormaliseParsed(j: Json): (r: Option<Json>)
    ensures !j.JArray? ==> r == Some(j)
    ensures j.JArray? ==> (r.Some? <==> AllObjects(j.items))
    ensures r.Some? && j.JArray? ==> r.value.JArray? && |r.value.items| == |j.items|
    ensures r.Some? && j.JArray? ==> forall i :: 0 <= i < |j.items| ==>
              r.value.items[i] == JObject(LowerKeys(j.items[i].fields))
    ensures r.Some? && j.JArray? ==> forall i :: 0 <= i < |r.value.items| ==> CanonicalObject(r.value.items[i])
  {
    match j
    case JArray(items) =>
      if AllObjects(items) then
        Some(JArray(seq(|items|, i requires 0 <= i < |items| => JObject(LowerKeys(items[i].fields)))))
      else None
    case _ => Some(j)
  }

  /** A list of canonical objects is left as it is. */
  lemma CanonicalUnchanged(j: Json)
    requires j.JArray? && forall i :: 0 <= i < |j.items| ==> CanonicalObject(j.items[i])
    ensures NormaliseParsed(j) == Some(j)
  {
    var r := NormaliseParsed(j).value;
    forall i | 0 <= i < |j.items|
      ensures r.items[i] == j.items[i]
    {
      LowerKeysIdentity(j.items[i].fields);
    }
    assert r.items == j.items;
  }

  /** Normalising what has been normalised changes nothing. */
  lemma NormaliseParsedIdempotent(j: Json)
    requires NormaliseParsed(j).Some?
    ensures NormaliseParsed(NormaliseParsed(j).value) == NormaliseParsed(j)
  {
    if j.JArray? {
      CanonicalUnchanged(NormaliseParsed(j).value);
    }
  }

  /**
   * `load_file`: the file's text (`None` when it cannot be read), cleaned,
   * handed to the JSON parser (`None` when it rejects the text), and the
   * list case normalised. `parse` stands for `json.loads` and gives
   * objects with distinct keys.
   */
  function LoadFile(contents: Option<string>, parse: string -> Option<Json>): (r: Option<Json>)
    ensures contents.None? ==> r.None?
    ensures r.Some? <==> contents.Some? && parse(Normalise(contents.value)).Some?
                         && (parse(Normalise(contents.value)).value.JArray? ==> AllObjects(parse(Normalise(contents.value)).value.items))
    ensures r.Some? && !r.value.JArray? ==> r == parse(Normalise(contents.value))
    ensures r.Some? && r.value.JArray? ==> forall i :: 0 <= i < |r.value.items| ==> CanonicalObject(r.value.items[i])
  {
    match contents
    case None => None
    case Some(text) =>
      match parse(Normalise(text))
      case None => None
      case Some(j) => NormaliseParsed(j)
  }

  /**
   * A file without commas or single quotes whose parse is not a list, or is
   * a list of canonical objects, loads as exactly what the parser returns.
   */
  lemma CleanFileLoadsAsParsed(text: string, parse: string -> Option<Json>, j: Json)
    requires ',' !in text && '\'' !in text && parse(text) == Some(j)
    requires j.JArray? ==> forall i :: 0 <= i < |j.items| ==> CanonicalObject(j.items[i])
    ensures LoadFile(Some(text), parse) == Some(j)
  {
    NormaliseClean(text);
    if j.JArray? {
      CanonicalUnchanged(j);
    }
  }

  // ---------------------------------------------------------------- apostrophes

  /**
   * An apostrophe the tracker saved inside a string (`json.dump` writes it
   * as is) is turned into a double quote on the next load: in a file
   * without commas every other character stays and that one changes.
   */
  lemma SavedApostropheRewritten(s: string, i: nat)
    requires ',' !in s && i < |s| && s[i] == '\''
    ensures |Normalise(s)| == |s| && Normalise(s)[i] == '"' && Normalise(s) != s
    ensures forall j :: 0 <= j < |s| && j != i && s[j] != '\'' ==> Normalise(s)[j] == s[j]
  {
    StripNoComma(s, '}');
    StripNoComma(s, ']');
  }

  /** A lone apostrophe between text without commas or quotes becomes a double quote. */
  lemma ApostropheBetween(a: string, b: string)
    requires ',' !in a && ',' !in b && '\'' !in a && '\'' !in b
    ensures Normalise(a + "'" + b) == a + "\"" + b
  {
    var s := a + "'" + b;
    assert forall i :: 0 <= i < |s| ==> s[i] == (if i < |a| then a[i] else if i == |a| then '\'' else b[i - |a| - 1]);
    StripNoComma(s, '}');
    StripNoComma(s, ']');
    var r := ReplaceQuotes(s);
    var t := a + "\"" + b;
    assert forall i :: 0 <= i < |t| ==> r[i] == t[i];
  }

  /** The description `Joe's` comes back as the malformed text `"Joe"s"`. */
  lemma ApostropheExample(s: string)
    requires s == "[{\"description\": \"Joe's\"}]"
    ensures Normalise(s) == "[{\"description\": \"Joe\"s\"}]"
  {
    var a, b := "[{\"description\": \"Joe", "s\"}]";
    assert s == a + "'" + b;
    ApostropheBetween(a, b);
    assert a + "\"" + b == "[{\"description\": \"Joe\"s\"}]";
  }

  /**
   * `load_file` with the repairs applied only to text the JSON parser
   * rejects as it is: a file the parser accepts is read as written.
   */
  function LoadFileKeepingJson(contents: Option<string>, parse: string -> Option<Json>): (r: Option<Json>)
    ensures contents.None? ==> r.None?
    ensures contents.Some? && parse(contents.value).None? ==> r == LoadFile(contents, parse)
    ensures r.Some? && r.value.JArray? ==> forall i :: 0 <= i < |r.value.items| ==> CanonicalObject(r.value.items[i])
  {
    match contents
    case None => None
    case Some(text) =>
      match parse(text)
      case None => LoadFile(contents, parse)
      case Some(j) => NormaliseParsed(j)
  }

  /**
   * Whatever the tracker saved loads back as it was saved, apostrophes and
   * commas included.
   */
  lemma SavedFileLoadsBack(text: string, parse: string -> Option<Json>, j: Json)
    requires parse(text) == Some(j)
    requires j.JArray? ==> forall i :: 0 <= i < |j.items| ==> CanonicalObject(j.items[i])
    ensures LoadFileKeepingJson(Some(text), parse) == Some(j)
  {
    if j.JArray? {
      CanonicalUnchanged(j);
    }
  }
}
