/** The decoder generator (scripts/generate_decoder.py): it reads the `#define` lines the C
    preprocessor prints for the node's configuration header, keeps the names of the known
    features, and prints the `decode(...)` call with one (type, key) pair per uplink field
    whose condition the configuration meets. */
module DecoderGenerator {

  import opened Common

  // ---------------------------------------------------------------------------------------
  // Line normalisation

  /** Whitespace as `str.strip` and the `\s` class see it, restricted to ASCII: the space,
      tab to carriage return (9 to 13) and the four separators 28 to 31. */
  predicate IsSpace(c: char)
  {
    c == ' ' || '\t' <= c <= '\r' || 0x1c <= c as int <= 0x1f
  }

  predicate NoSpace(s: string)
  {
    forall i :: 0 <= i < |s| ==> !IsSpace(s[i])
  }

  predicate AllSpace(s: string)
  {
    forall i :: 0 <= i < |s| ==> IsSpace(s[i])
  }

  /** `line.removeprefix('#define')`. */
  function RemovePrefix(line: string, prefix: string): (r: string)
    ensures prefix <= line ==> line == prefix + r
    ensures !(prefix <= line) ==> r == line
  {
    if prefix <= line then line[|prefix|..] else line
  }

  /** `lstrip()`: leading whitespace removed. */
  function LStrip(s: string): string
    decreases |s|
  {
    if s != [] && IsSpace(s[0]) then LStrip(s[1..]) else s
  }

  /** `rstrip()`: trailing whitespace removed. */
  function RStrip(s: string): string
    decreases |s|
  {
    if s != [] && IsSpace(s[|s| - 1]) then RStrip(s[..|s| - 1]) else s
  }

  /** `strip()`: whitespace removed at both ends. */
  function Strip(s: string): string
  {
    RStrip(LStrip(s))
  }

  /** The text up to and including its last whitespace character: the text with its trailing
      run of non-whitespace removed. */
  function DropTrailingToken(s: string): string
    decreases |s|
  {
    if s != [] && !IsSpace(s[|s| - 1]) then DropTrailingToken(s[..|s| - 1]) else s
  }

  /** `re.sub(r'\s+\S+$', '', line)`: when the text ends in a run of whitespace followed by a
      final non-empty run of non-whitespace, both are removed; otherwise nothing changes. */
  function DropLastWord(s: string): string
  {
    if s == [] || IsSpace(s[|s| - 1]) then s
    else
      var t := DropTrailingToken(s);
      if t == [] then s else RStrip(t)
  }

  /** The whole per-line chain of the input loop. */
  function Normalise(line: string): (r: string)
    ensures r == [] || (!IsSpace(r[0]) && !IsSpace(r[|r| - 1]))
  {
    var s := Strip(LStrip(RemovePrefix(line, "#define")));
    StripSpec(LStrip(RemovePrefix(line, "#define")));
    DropLastWordStripped(s);
    DropLastWord(s)
  }

  /** Cutting the last word of a stripped line leaves it stripped. */
  lemma DropLastWordStripped(s: string)
    requires s == [] || (!IsSpace(s[0]) && !IsSpace(s[|s| - 1]))
    ensures var r := DropLastWord(s); r == [] || (!IsSpace(r[0]) && !IsSpace(r[|r| - 1]))
  {
    DropLastWordSplit(s);
    var r := DropLastWord(s);
    if r != [] && !NoSpace(s) {
      var gap, word :| s == r + gap + word && gap != [] && AllSpace(gap) && word != [] && NoSpace(word);
      assert s[0] == r[0];
    }
  }

  /** `lstrip` removes a run of whitespace at the front, and all of it. */
  lemma {:induction false} LStripSpec(s: string)
    ensures var r := LStrip(s);
            |r| <= |s| && r == s[|s| - |r|..] && AllSpace(s[..|s| - |r|])
            && (r == [] || !IsSpace(r[0]))
    decreases |s|
  {
    if s != [] && IsSpace(s[0]) {
      LStripSpec(s[1..]);
      var r := LStrip(s);
      assert s[..|s| - |r|] == [s[0]] + s[1..][..|s| - 1 - |r|];
    }
  }

  /** `rstrip` removes a run of whitespace at the back, and all of it. */
  lemma {:induction false} RStripSpec(s: string)
    ensures var r := RStrip(s);
            r <= s && AllSpace(s[|r|..]) && (r == [] || !IsSpace(r[|r| - 1]))
    decreases |s|
  {
    if s != [] && IsSpace(s[|s| - 1]) {
      RStripSpec(s[..|s| - 1]);
      var r := RStrip(s);
      assert s[|r|..] == s[..|s| - 1][|r|..] + [s[|s| - 1]];
    }
  }

  /** `strip` leaves a text that starts and ends with non-whitespace, or nothing. */
  lemma StripSpec(s: string)
    ensures var r := Strip(s); r == [] || (!IsSpace(r[0]) && !IsSpace(r[|r| - 1]))
  {
    LStripSpec(s);
    var l := LStrip(s);
    RStripSpec(l);
    var r := RStrip(l);
    if r != [] {
      assert r[0] == l[0];
    }
  }

  /** What `DropTrailingToken` removes is free of whitespace, and what it keeps ends with
      whitespace, or is empty. */
  lemma {:induction false} DropTrailingTokenSpec(s: string)
    ensures var r := DropTrailingToken(s);
            r <= s && NoSpace(s[|r|..]) && (r == [] || IsSpace(r[|r| - 1]))
    decreases |s|
  {
    if s != [] && !IsSpace(s[|s| - 1]) {
      DropTrailingTokenSpec(s[..|s| - 1]);
      var r := DropTrailingToken(s);
      assert s[|r|..] == s[..|s| - 1][|r|..] + [s[|s| - 1]];
    }
  }

  /** What the substitution removes: a stripped text with whitespace in it loses exactly a
      whitespace run and the word after it; a text without whitespace is kept. */
  lemma DropLastWordSplit(s: string)
    requires s == [] || (!IsSpace(s[0]) && !IsSpace(s[|s| - 1]))
    ensures NoSpace(s) ==> DropLastWord(s) == s
    ensures !NoSpace(s) ==>
              exists gap, word :: s == DropLastWord(s) + gap + word && gap != [] && AllSpace(gap)
                                  && word != [] && NoSpace(word)
    ensures DropLastWord(s) == [] || !IsSpace(DropLastWord(s)[|DropLastWord(s)| - 1])
  {
    if s != [] {
      var t := DropTrailingToken(s);
      DropTrailingTokenSpec(s);
      if t == [] {
        assert NoSpace(s) by {
          assert s[|t|..] == s;
        }
      } else {
        var r := RStrip(t);
        RStripSpec(t);
        var gap, word := t[|r|..], s[|t|..];
        assert t == r + gap;
        assert s == t + word;
        assert !NoSpace(s) by {
          assert IsSpace(s[|t| - 1]);
        }
        assert gap != [] by {
          assert IsSpace(t[|t| - 1]);
        }
        assert word != [] by {
          assert s[|s| - 1] == word[|word| - 1];
        }
        assert s == r + gap + word;
      }
    }
  }

  /** The first three steps of the chain on a `#define` line: the directive, the blanks
      around the rest and the line ending go. */
  lemma NormaliseStrip(text: string, ending: string)
    requires text != [] && !IsSpace(text[0]) && !IsSpace(text[|text| - 1]) && AllSpace(ending)
    ensures Strip(LStrip(RemovePrefix("#define " + text + ending, "#define"))) == text
  {
    var line := "#define " + text + ending;
    var body := " " + text + ending;
    assert line == "#define" + body;
    assert RemovePrefix(line, "#define") == body;
    assert body[1..] == text + ending;
    assert LStrip(body) == text + ending;
    RStripSpaces(text, ending);
  }

  /** A `#define NAME` line without a value normalises to NAME. */
  lemma NormaliseFlag(name: string, ending: string)
    requires name != [] && NoSpace(name) && AllSpace(ending)
    ensures Normalise("#define " + name + ending) == name
  {
    NormaliseStrip(name, ending);
    DropLastWordSplit(name);
  }

  /** A `#define NAME VALUE` line normalises to NAME: the value is the word the substitution
      drops. */
  lemma NormaliseValue(name: string, value: string, ending: string)
    requires name != [] && NoSpace(name) && value != [] && NoSpace(value) && AllSpace(ending)
    ensures Normalise("#define " + (name + " " + value) + ending) == name
  {
    NormaliseStrip(name + " " + value, ending);
    DropValue(name, value);
  }

  lemma DropValue(name: string, value: string)
    requires name != [] && NoSpace(name) && value != [] && NoSpace(value)
    ensures DropLastWord(name + " " + value) == name
  {
    var t := name + " ";
    var text := t + value;
    DropTrailingWord(t, value);
    assert DropTrailingToken(t) == t;
    RStripSpaces(name, " ");
    assert text[|text| - 1] == value[|value| - 1];
  }

  lemma {:induction false} RStripSpaces(s: string, ending: string)
    requires s == [] || !IsSpace(s[|s| - 1])
    requires AllSpace(ending)
    ensures RStrip(s + ending) == RStrip(s) == s
    decreases |ending|
  {
    if ending == [] {
      assert s + ending == s;
    } else {
      assert (s + ending)[..|s + ending| - 1] == s + ending[..|ending| - 1];
      RStripSpaces(s, ending[..|ending| - 1]);
    }
  }

  lemma {:induction false} DropTrailingWord(s: string, word: string)
    requires NoSpace(word)
    ensures DropTrailingToken(s + word) == DropTrailingToken(s)
    decreases |word|
  {
    if word == [] {
      assert s + word == s;
    } else {
      assert (s + word)[..|s + word| - 1] == s + word[..|word| - 1];
      DropTrailingWord(s, word[..|word| - 1]);
    }
  }

  // ---------------------------------------------------------------------------------------
  // Feature collection

  /** The known features: only these names are collected from the input. */
  const Features: seq<string> := [
    "SENSORID_EN", "ONEWIRE_EN", "SLEEP_EN", "THEENGSDECODER_EN", "RAINDATA_EN",
    "SOILSENSOR_EN", "MITHERMOMETER_EN", "DISTANCESENSOR_EN", "ADC_EN", "PIN_ADC_IN",
    "PIN_ADC0_IN", "PIN_ADC1_IN", "PIN_ADC2_IN", "PIN_ADC3_IN"]

  /** Every line of the input, normalised. */
  function Names(lines: seq<string>): (names: seq<string>)
    ensures |names| == |lines|
    ensures forall i :: 0 <= i < |lines| ==> names[i] == Normalise(lines[i])
    decreases |lines|
  {
    if lines == [] then [] else Names(lines[..|lines| - 1]) + [Normalise(lines[|lines| - 1])]
  }

  /** The names in `known`, in order, repeats included. */
  function Kept(names: seq<string>, known: seq<string>): (list: seq<string>)
    ensures |list| <= |names|
    decreases |names|
  {
    if names == [] then []
    else
      var n := names[|names| - 1];
      Kept(names[..|names| - 1], known) + (if n in known then [n] else [])
  }

  /** The list the input loop builds. */
  function Collected(lines: seq<string>): seq<string>
  {
    Kept(Names(lines), Features)
  }

  /** The input loop over the preprocessor's lines. */
  method CollectFeatures(lines: seq<string>) returns (list: seq<string>)
    ensures list == Collected(lines)
  {
    list := [];
    for i := 0 to |lines|
      invariant list == Kept(Names(lines[..i]), Features)
    {
      assert lines[..i + 1][..i] == lines[..i];
      var line := Normalise(lines[i]);
      assert Names(lines[..i + 1]) == Names(lines[..i]) + [line];
      if line in Features {
        list := list + [line];
      }
    }
    assert lines[..|lines|] == lines;
  }

  /** A name is kept exactly when it is known and occurs among the names. */
  lemma {:induction false} KeptMembers(names: seq<string>, known: seq<string>, x: string)
    ensures x in Kept(names, known) <==> x in known && x in names
    decreases |names|
  {
    if names != [] {
      var pre := names[..|names| - 1];
      KeptMembers(pre, known, x);
      assert names == pre + [names[|names| - 1]];
    }
  }

  /** Collected names are known features that some input line normalises to, and each such
      name is collected. */
  lemma CollectedMembers(lines: seq<string>, x: string)
    ensures x in Collected(lines) <==> x in Features && exists i :: 0 <= i < |lines| && Normalise(lines[i]) == x
  {
    KeptMembers(Names(lines), Features, x);
    if x in Names(lines) {
      var i :| 0 <= i < |lines| && Names(lines)[i] == x;
    }
  }

  // ---------------------------------------------------------------------------------------
  // The generator table

  /** The value of one generator entry: the feature it depends on (`""` for none) and the name
      of its decoding function. */
  datatype Field = Field(cond: string, kind: string)

  /** The entries of the `generator` dictionary literal as written: the first fourteen, the
      two that repeat the indoor keys, and the twelve after them. */
  const FirstEntries: seq<(string, Field)> := [
    ("id", Field("SENSORID_EN", "uint32")),
    ("status_node", Field("", "bitmap")),
    ("status", Field("", "bitmap")),
    ("air_temp_c", Field("", "temperature")),
    ("humidity", Field("", "uint8")),
    ("wind_gust_meter_sec", Field("", "uint16fp1")),
    ("wind_avg_meter_sec", Field("", "uint16fp1")),
    ("wind_direction_deg", Field("", "uint16fp1")),
    ("rain_mm", Field("", "rawfloat")),
    ("supply_v", Field("ADC_EN", "uint16")),
    ("battery_v", Field("PIN_ADC3_IN", "uint16")),
    ("water_temp_c", Field("ONEWIRE_EN", "temperature")),
    ("indoor_temp_c", Field("THEENGSDECODER_EN", "temperature")),
    ("indoor_humidity", Field("THEENGSDECODER_EN", "uint8"))]

  const RepeatedEntries: seq<(string, Field)> := [
    ("indoor_temp_c", Field("MITHERMOMETER_EN", "temperature")),
    ("indoor_humidity", Field("MITHERMOMETER_EN", "uint8"))]

  const LaterEntries: seq<(string, Field)> := [
    ("soil_temp_c", Field("SOILSENSOR_EN", "temperature")),
    ("soil_moisture", Field("SOILSENSOR_EN", "uint8")),
    ("rain_hr", Field("RAINDATA_EN", "rawfloat")),
    ("rain_day", Field("RAINDATA_EN", "rawfloat")),
    ("rain_week", Field("RAINDATA_EN", "rawfloat")),
    ("rain_mon", Field("RAINDATA_EN", "rawfloat")),
    ("adc0_v", Field("PIN_ADC0_IN", "uint16")),
    ("adc1_v", Field("PIN_ADC1_IN", "uint16")),
    ("adc2_v", Field("PIN_ADC2_IN", "uint16")),
    ("distance_mm", Field("DISTANCESENSOR_EN", "uint16")),
    ("lightning_count", Field("LIGHTNINGSENSOR_EN", "uint16")),
    ("lightning_distance_km", Field("LIGHTNINGSENSOR_EN", "uint8"))]

  const GeneratorLiteral: seq<(string, Field)> := FirstEntries + RepeatedEntries + LaterEntries

  function Keys(items: seq<(string, Field)>): (ks: seq<string>)
    ensures |ks| == |items|
    ensures forall i :: 0 <= i < |items| ==> ks[i] == items[i].0
  {
    seq(|items|, i requires 0 <= i < |items| => items[i].0)
  }

  /** No key appears twice: what a dictionary's items always satisfy. */
  predicate UniqueKeys(items: seq<(string, Field)>)
  {
    forall i, j :: 0 <= i < j < |items| ==> items[i].0 != items[j].0
  }

  /** Storing `value` under `key` in an insertion-ordered dictionary: an existing key keeps
      its position and takes the new value, a new key goes at the end. */
  function Put(items: seq<(string, Field)>, key: string, value: Field): (r: seq<(string, Field)>)
    requires UniqueKeys(items)
    ensures UniqueKeys(r)
    ensures key in Keys(items) ==> |r| == |items|
    ensures key !in Keys(items) ==> r == items + [(key, value)]
    ensures forall i :: 0 <= i < |items| ==> r[i].0 == items[i].0
    ensures forall i :: 0 <= i < |items| && items[i].0 != key ==> r[i] == items[i]
    ensures forall i :: 0 <= i < |items| && items[i].0 == key ==> r[i] == (key, value)
    decreases |items|
  {
    if items == [] then [(key, value)]
    else
      assert Keys(items) == [items[0].0] + Keys(items[1..]);
      TailUnique(items);
      if items[0].0 == key then
        assert key !in Keys(items[1..]);
        ConsUnique((key, value), items[1..]);
        [(key, value)] + items[1..]
      else
        var rest := Put(items[1..], key, value);
        assert forall i :: 0 <= i < |rest| ==> rest[i].0 != items[0].0 by {
          forall i | 0 <= i < |rest| ensures rest[i].0 != items[0].0 {
            if i < |items| - 1 {
              assert rest[i].0 == items[i + 1].0;
            }
          }
        }
        ConsUnique(items[0], rest);
        var r := [items[0]] + rest;
        assert forall i :: 0 < i < |r| ==> r[i] == rest[i - 1];
        r
  }

  /** The tail of a dictionary's items has no repeated key either. */
  lemma TailUnique(items: seq<(string, Field)>)
    requires UniqueKeys(items) && items != []
    ensures UniqueKeys(items[1..])
  {
    var t := items[1..];
    forall i, j | 0 <= i < j < |t| ensures t[i].0 != t[j].0 {
      assert t[i] == items[i + 1] && t[j] == items[j + 1];
    }
  }

  /** An item whose key is not among those of unique items can go in front. */
  lemma ConsUnique(x: (string, Field), items: seq<(string, Field)>)
    requires UniqueKeys(items)
    requires forall i :: 0 <= i < |items| ==> items[i].0 != x.0
    ensures UniqueKeys([x] + items)
  {
    var r := [x] + items;
    forall i, j | 0 <= i < j < |r| ensures r[i].0 != r[j].0 {
      assert r[j] == items[j - 1];
      if i > 0 {
        assert r[i] == items[i - 1];
      }
    }
  }

  /** The dictionary a literal with repeated keys builds, entry by entry. */
  function BuildDict(entries: seq<(string, Field)>): (r: seq<(string, Field)>)
    ensures UniqueKeys(r)
    decreases |entries|
  {
    if entries == [] then []
    else
      var last := entries[|entries| - 1];
      Put(BuildDict(entries[..|entries| - 1]), last.0, last.1)
  }

  /** `generator.items()`: 26 entries, the repeated indoor keys at their first position with
      the later condition `MITHERMOMETER_EN`. */
  const GeneratorItems: seq<(string, Field)> := FirstItems + LaterEntries

  /** The first fourteen entries once the repeats have overwritten the indoor values. */
  const FirstItems: seq<(string, Field)> := FirstEntries[12 := RepeatedEntries[0]][13 := RepeatedEntries[1]]

  // ---------------------------------------------------------------------------------------
  // Selection and output

  /** Whether an entry is emitted for the collected list. */
  predicate Enabled(f: Field, list: seq<string>)
  {
    f.cond == "" || f.cond in list
  }

  /** The emitted entries, in dictionary order. */
  function Selected(items: seq<(string, Field)>, list: seq<string>): (sel: seq<(string, Field)>)
    ensures |sel| <= |items|
    decreases |items|
  {
    if items == [] then []
    else
      var last := items[|items| - 1];
      Selected(items[..|items| - 1], list) + (if Enabled(last.1, list) then [last] else [])
  }

  /** An entry is emitted exactly when it is in the dictionary and its condition holds. */
  lemma {:induction false} SelectedMembers(items: seq<(string, Field)>, list: seq<string>, e: (string, Field))
    ensures e in Selected(items, list) <==> e in items && Enabled(e.1, list)
    decreases |items|
  {
    if items != [] {
      var pre := items[..|items| - 1];
      SelectedMembers(pre, list, e);
      assert items == pre + [items[|items| - 1]];
    }
  }

  /** One output line: 12 spaces, the name, a comma. */
  function Line(name: string): string
  {
    "            " + name + ",\n"
  }

  /** An opened list: 8 spaces and `[`, then one line per name. */
  function Block(names: seq<string>): string
    decreases |names|
  {
    if names == [] then "        [\n" else Block(names[..|names| - 1]) + Line(names[|names| - 1])
  }

  function Kinds(items: seq<(string, Field)>): (ks: seq<string>)
    ensures |ks| == |items|
    ensures forall i :: 0 <= i < |items| ==> ks[i] == items[i].1.kind
  {
    seq(|items|, i requires 0 <= i < |items| => items[i].1.kind)
  }

  /** Emitting one more entry adds one line to each text. */
  lemma BlockStep(sel: seq<(string, Field)>, e: (string, Field))
    ensures Block(Kinds(sel + [e])) == Block(Kinds(sel)) + Line(e.1.kind)
    ensures Block(Keys(sel + [e])) == Block(Keys(sel)) + Line(e.0)
  {
    assert Kinds(sel + [e])[..|sel|] == Kinds(sel);
    assert Keys(sel + [e])[..|sel|] == Keys(sel);
  }

  /** The output loop: grows the two texts in step, one line each per emitted entry. */
  method EmitFields(items: seq<(string, Field)>, list: seq<string>) returns (types: string, keys: string)
    ensures types == Block(Kinds(Selected(items, list)))
    ensures keys == Block(Keys(Selected(items, list)))
  {
    types := Block([]);
    keys := Block([]);
    for i := 0 to |items|
      invariant types == Block(Kinds(Selected(items[..i], list)))
      invariant keys == Block(Keys(Selected(items[..i], list)))
    {
      assert items[..i + 1][..i] == items[..i];
      var (k, v) := items[i];
      ghost var sel := Selected(items[..i], list);
      if v.cond == "" || v.cond in list {
        types := types + Line(v.kind);
        keys := keys + Line(k);
        assert Selected(items[..i + 1], list) == sel + [items[i]];
        BlockStep(sel, items[i]);
      } else {
        assert Selected(items[..i + 1], list) == sel;
      }
    }
    assert items[..|items|] == items;
  }

  /** The printed text: header, types, the closing `],` of the types, keys, footer, each
      followed by the newline of `print`. */
  function Output(types: string, keys: string): (r: string)
    ensures EndsWith(r, keys + "\n    );\n")
  {
    "    return decode(\n        bytes," + "\n" + types + "\n" + "        ]," + "\n" + keys + "\n" + "    );" + "\n"
  }

  /** The whole script over the preprocessor's lines. */
  method GenerateDecoder(lines: seq<string>) returns (text: string)
    ensures text == Output(Block(Kinds(Selected(GeneratorItems, Collected(lines)))),
                           Block(Keys(Selected(GeneratorItems, Collected(lines)))))
  {
    var list := CollectFeatures(lines);
    var types, keys := EmitFields(GeneratorItems, list);
    text := "    return decode(\n        bytes," + "\n";
    text := text + types + "\n";
    text := text + "        ]," + "\n";
    text := text + keys + "\n";
    text := text + "    );" + "\n";
  }

  // ---------------------------------------------------------------------------------------
  // Properties of the generated call

  /** The dictionary literal, with its repeated indoor keys, builds `GeneratorItems`. */
  lemma GeneratorDict()
    ensures BuildDict(GeneratorLiteral) == GeneratorItems
  {
    RepeatsOverwrite();
    LaterKeysUnique();
    LaterKeysFresh();
    BuildDictFresh(FirstEntries + RepeatedEntries, LaterEntries);
  }

  /** The two repeated entries overwrite the values of the indoor keys in place. */
  lemma RepeatsOverwrite()
    ensures BuildDict(FirstEntries + RepeatedEntries) == FirstItems
  {
    FirstKeysUnique();
    var r := RepeatedEntries;
    assert r == [r[0], r[1]];
    Overwrite(FirstEntries, 12, 13, r[0], r[1]);
  }

  /** Two entries that repeat the keys at `i` and `j` of entries with distinct keys replace
      those values and leave the order alone. */
  lemma Overwrite(first: seq<(string, Field)>, i: nat, j: nat, a: (string, Field), b: (string, Field))
    requires UniqueKeys(first) && i < |first| && j < |first|
    requires first[i].0 == a.0 && first[j].0 == b.0
    ensures BuildDict(first + [a, b]) == first[i := a][j := b]
  {
    var once := first + [a];
    var twice := once + [b];
    assert twice == first + [a, b];
    BuildDictUnique(first);
    PutAgain(first, first, i, a);
    var d := first[i := a];
    assert d[j].0 == b.0;
    PutAgain(once, d, j, b);
  }

  /** An entry that repeats the key at `i` of the dictionary built so far replaces its value. */
  lemma PutAgain(entries: seq<(string, Field)>, d: seq<(string, Field)>, i: nat, e: (string, Field))
    requires BuildDict(entries) == d && i < |d| && d[i].0 == e.0
    ensures BuildDict(entries + [e]) == d[i := e]
  {
    var all := entries + [e];
    assert all[..|all| - 1] == entries;
    PutOld(d, i, e);
  }

  /** The first fourteen keys are all different. */
  lemma FirstKeysUnique()
    ensures UniqueKeys(FirstEntries)
  {
  }

  /** The last twelve keys are all different. */
  lemma LaterKeysUnique()
    ensures UniqueKeys(LaterEntries)
  {
  }

  /** None of the last twelve keys occurs among the first fourteen. */
  lemma LaterKeysFresh()
    ensures forall i, j :: 0 <= i < |FirstItems| && 0 <= j < |LaterEntries| ==> FirstItems[i].0 != LaterEntries[j].0
  {
  }

  lemma BuildDictStep(entries: seq<(string, Field)>, k: nat)
    requires k < |entries|
    ensures BuildDict(entries[..k + 1]) == Put(BuildDict(entries[..k]), entries[k].0, entries[k].1)
  {
    assert entries[..k + 1][..k] == entries[..k];
  }

  lemma PutOld(items: seq<(string, Field)>, k: nat, e: (string, Field))
    requires UniqueKeys(items) && k < |items| && items[k].0 == e.0
    ensures Put(items, e.0, e.1) == items[k := e]
  {
  }

  /** Entries with distinct keys build a dictionary that lists them as given. */
  lemma {:induction false} BuildDictUnique(entries: seq<(string, Field)>)
    requires UniqueKeys(entries)
    ensures BuildDict(entries) == entries
    decreases |entries|
  {
    if entries != [] {
      var k := |entries| - 1;
      var pre, e := entries[..k], entries[k];
      assert UniqueKeys(pre) by {
        forall p, q | 0 <= p < q < |pre|
          ensures pre[p].0 != pre[q].0
        {
          assert pre[p] == entries[p] && pre[q] == entries[q];
        }
      }
      BuildDictUnique(pre);
      assert e.0 !in Keys(pre) by {
        forall i | 0 <= i < k
          ensures Keys(pre)[i] != e.0
        {
          assert pre[i] == entries[i];
        }
      }
      LastSplit(entries);
    }
  }

  /** Entries with new, distinct keys are appended in order. */
  lemma {:induction false} BuildDictFresh(entries: seq<(string, Field)>, rest: seq<(string, Field)>)
    requires UniqueKeys(rest)
    requires forall i, j :: 0 <= i < |BuildDict(entries)| && 0 <= j < |rest| ==> BuildDict(entries)[i].0 != rest[j].0
    ensures BuildDict(entries + rest) == BuildDict(entries) + rest
    decreases |rest|
  {
    if rest == [] {
      assert entries + rest == entries;
    } else {
      var k := |rest| - 1;
      assert (entries + rest)[..|entries + rest| - 1] == entries + rest[..k];
      BuildDictFresh(entries, rest[..k]);
      var d := BuildDict(entries) + rest[..k];
      assert rest[k].0 !in Keys(d) by {
        forall i | 0 <= i < |d|
          ensures d[i].0 != rest[k].0
        {
          if i >= |BuildDict(entries)| {
            assert d[i] == rest[i - |BuildDict(entries)|];
          }
        }
      }
      LastSplit(rest);
      AppendAssoc(BuildDict(entries), rest[..k], [rest[k]]);
    }
  }

  /** Selecting from a concatenation selects from each part. */
  lemma {:induction false} SelectedAppend(a: seq<(string, Field)>, b: seq<(string, Field)>, list: seq<string>)
    ensures Selected(a + b, list) == Selected(a, list) + Selected(b, list)
    decreases |b|
  {
    if b == [] {
      assert a + b == a;
    } else {
      var k := |b| - 1;
      assert (a + b)[..|a + b| - 1] == a + b[..k];
      SelectedAppend(a, b[..k], list);
    }
  }

  /** Only which features are listed matters, not their order or repeats. */
  lemma {:induction false} SelectedSameFeatures(items: seq<(string, Field)>, list1: seq<string>, list2: seq<string>)
    requires forall c :: c in list1 <==> c in list2
    ensures Selected(items, list1) == Selected(items, list2)
    decreases |items|
  {
    if items != [] {
      SelectedSameFeatures(items[..|items| - 1], list1, list2);
    }
  }

  /** Whatever the configuration, the eight unconditional fields are emitted in dictionary
      order, right after `id` when `SENSORID_EN` is listed and first otherwise. */
  lemma UnconditionalFields(list: seq<string>)
    ensures var sel := Selected(GeneratorItems, list);
            var s := if "SENSORID_EN" in list then 1 else 0;
            |sel| >= s + 8 && sel[s..s + 8] == GeneratorItems[1..9]
  {
    var items := GeneratorItems;
    var head, mid, tail := items[..1], items[1..9], items[9..];
    assert items == head + mid + tail;
    SelectedAppend(head + mid, tail, list);
    SelectedAppend(head, mid, list);
    UnconditionalConds();
    SelectedAll(mid, list);
    assert head[..0] == [];
    assert Selected(head, list) == (if "SENSORID_EN" in list then head else []);
  }

  /** The entries from `status_node` to `rain_mm` have no condition. */
  lemma UnconditionalConds()
    ensures forall i :: 1 <= i < 9 ==> GeneratorItems[i].1.cond == ""
  {
    assert GeneratorItems[..14] == FirstItems;
  }

  lemma {:induction false} SelectedAll(items: seq<(string, Field)>, list: seq<string>)
    requires forall i :: 0 <= i < |items| ==> items[i].1.cond == ""
    ensures Selected(items, list) == items
    decreases |items|
  {
    if items != [] {
      SelectedAll(items[..|items| - 1], list);
    }
  }

  /** The indoor fields follow the later, `MITHERMOMETER_EN`, condition: they are emitted
      exactly when `MITHERMOMETER_EN` is listed, and listing `THEENGSDECODER_EN` changes
      nothing at all. */
  lemma IndoorFields(list: seq<string>)
    ensures ("indoor_temp_c", Field("MITHERMOMETER_EN", "temperature")) in Selected(GeneratorItems, list)
            <==> "MITHERMOMETER_EN" in list
    ensures ("indoor_humidity", Field("MITHERMOMETER_EN", "uint8")) in Selected(GeneratorItems, list)
            <==> "MITHERMOMETER_EN" in list
    ensures Selected(GeneratorItems, ["THEENGSDECODER_EN"]) == Selected(GeneratorItems, [])
  {
    var t, h := GeneratorItems[12], GeneratorItems[13];
    assert t == ("indoor_temp_c", Field("MITHERMOMETER_EN", "temperature"));
    assert h == ("indoor_humidity", Field("MITHERMOMETER_EN", "uint8"));
    SelectedMembers(GeneratorItems, list, t);
    SelectedMembers(GeneratorItems, list, h);
    NoTheengsCond();
    SelectedNoCond(GeneratorItems, ["THEENGSDECODER_EN"], []);
  }

  /** After the repeated keys took their later values, no entry depends on
      `THEENGSDECODER_EN`. */
  lemma NoTheengsCond()
    ensures forall i :: 0 <= i < |GeneratorItems| ==> GeneratorItems[i].1.cond != "THEENGSDECODER_EN"
  {
    var first := FirstItems;
    assert forall i :: 0 <= i < |first| ==> first[i].1.cond != "THEENGSDECODER_EN";
    assert forall i :: 0 <= i < |LaterEntries| ==> LaterEntries[i].1.cond != "THEENGSDECODER_EN";
  }

  lemma {:induction false} SelectedNoCond(items: seq<(string, Field)>, list1: seq<string>, list2: seq<string>)
    requires forall i :: 0 <= i < |items| ==> (items[i].1.cond in list1 <==> items[i].1.cond in list2)
    ensures Selected(items, list1) == Selected(items, list2)
    decreases |items|
  {
    if items != [] {
      SelectedNoCond(items[..|items| - 1], list1, list2);
    }
  }

  /** The lightning fields are never emitted: their feature is not a known one, so it is never
      collected, and the output is that of the dictionary without its last two entries. */
  lemma NoLightning(lines: seq<string>)
    ensures Selected(GeneratorItems, Collected(lines)) == Selected(GeneratorItems[..24], Collected(lines))
    ensures |Selected(GeneratorItems, Collected(lines))| <= 24
  {
    KeptMembers(Names(lines), Features, "LIGHTNINGSENSOR_EN");
    NotAFeature();
    WithoutLightning(Collected(lines));
  }

  /** A list without `LIGHTNINGSENSOR_EN` selects nothing from the last two entries. */
  lemma WithoutLightning(list: seq<string>)
    requires "LIGHTNINGSENSOR_EN" !in list
    ensures Selected(GeneratorItems, list) == Selected(GeneratorItems[..24], list)
  {
    var items := GeneratorItems;
    assert items[24..] == LaterEntries[10..];
    assert items[24].1.cond == items[25].1.cond == "LIGHTNINGSENSOR_EN";
    SelectedDrop(items, list, 24);
  }

  /** Entries at the end whose conditions are not listed contribute nothing. */
  lemma {:induction false} SelectedDrop(items: seq<(string, Field)>, list: seq<string>, k: nat)
    requires k <= |items|
    requires forall i :: k <= i < |items| ==> items[i].1.cond != "" && items[i].1.cond !in list
    ensures Selected(items, list) == Selected(items[..k], list)
    decreases |items|
  {
    if |items| > k {
      var pre := items[..|items| - 1];
      assert pre[..k] == items[..k];
      SelectedDrop(pre, list, k);
    } else {
      assert items[..k] == items;
    }
  }

  lemma NotAFeature()
    ensures "LIGHTNINGSENSOR_EN" !in Features
  {
    assert forall i :: 0 <= i < |Features| ==> |Features[i]| < 18;
  }

  /** The key list is left open: after the keys comes the closing parenthesis of the call,
      and no `]` appears anywhere from the key list to the end. */
  lemma KeysUnclosed(list: seq<string>)
    ensures var sel := Selected(GeneratorItems, list);
            var keys := Block(Keys(sel));
            EndsWith(Output(Block(Kinds(sel)), keys), keys + "\n    );\n")
            && ']' !in keys + "\n    );\n"
  {
    var sel := Selected(GeneratorItems, list);
    var keys := Block(Keys(sel));
    var prefix := OutputEnds(Block(Kinds(sel)), keys);
    KeyNamesPlain();
    forall n | n in Keys(sel)
      ensures ']' !in n
    {
      var i :| 0 <= i < |sel| && Keys(sel)[i] == n;
      SelectedMembers(GeneratorItems, list, sel[i]);
    }
    BlockChars(Keys(sel));
    var footer := "\n    );\n";
    assert ']' !in footer;
    assert forall c :: c in keys + footer ==> c in keys || c in footer;
    var text := Output(Block(Kinds(sel)), keys);
    assert text == prefix + (keys + footer);
    assert text[|text| - |keys + footer|..] == keys + footer;
  }

  /** `t` is a suffix of `s`. */
  predicate EndsWith(s: string, t: string)
  {
    |t| <= |s| && s[|s| - |t|..] == t
  }

  lemma OutputEnds(types: string, keys: string) returns (prefix: string)
    ensures Output(types, keys) == prefix + (keys + "\n    );\n")
  {
    prefix := "    return decode(\n        bytes," + "\n" + types + "\n" + "        ]," + "\n";
  }

  /** No key name holds a `]`. */
  lemma KeyNamesPlain()
    ensures forall e :: e in GeneratorItems ==> ']' !in e.0
  {
    var first := FirstItems;
    assert forall i :: 0 <= i < |first| ==> ']' !in first[i].0;
    assert forall i :: 0 <= i < |LaterEntries| ==> ']' !in LaterEntries[i].0;
  }

  lemma {:induction false} BlockChars(names: seq<string>)
    requires forall n :: n in names ==> ']' !in n
    ensures ']' !in Block(names)
    decreases |names|
  {
    if names != [] {
      BlockChars(names[..|names| - 1]);
    }
  }
}
