/**
  The `.env` text format of EnvironmentManager (config/env.js): how one
  line becomes an entry, how the whole text becomes the configuration
  object, how the object is written back as text, and which required
  variables validation reports.
 */
module DotEnv {
  import opened Wrappers
  import opened JsString
  import opened JsObject

  /** A key or value the reader can produce and read back unchanged:
      non-empty, trimmed, and free of `=` and line breaks. */
  predicate Clean(s: string) {
    s != [] && Trimmed(s) && '=' !in s && '\n' !in s
  }

  /** One line of the file: skipped when blank or when its first character
      is `#`; otherwise the trimmed text before the first `=` is the key and
      the trimmed text between the first and the second `=` the value,
      and the line counts only when both are non-empty. */
  function ParseLine(line: string): (r: Option<(string, string)>)
    ensures AllWhiteSpace(line) ==> r == None
    ensures |line| > 0 && line[0] == '#' ==> r == None
    ensures '=' !in line ==> r == None
    ensures r.Some? ==>
      var (key, value) := r.value;
      key != [] && Trimmed(key) && '=' !in key && line[0] != '#'
      && value != [] && Trimmed(value) && '=' !in value
    ensures r.Some? && '\n' !in line ==> '\n' !in r.value.0 && '\n' !in r.value.1
  {
    if Trim(line) == [] || (|line| > 0 && line[0] == '#') then None
    else
      var parts := Split(line, '=');
      var key := Trim(parts[0]);
      if |parts| < 2 then None
      else
        var value := Trim(parts[1]);
        if key != [] && value != [] then
          assert '=' !in line ==> Split(line, '=') == [line] by {
            if '=' !in line { SplitNone(line, '='); }
          }
          assert '=' !in key && '=' !in value by {
            TrimAbsent(parts[0], '=');
            TrimAbsent(parts[1], '=');
          }
          assert '\n' !in line ==> '\n' !in key && '\n' !in value by {
            if '\n' !in line {
              SplitAbsent(line, '=', '\n');
              TrimAbsent(parts[0], '\n');
              TrimAbsent(parts[1], '\n');
            }
          }
          Some((key, value))
        else None
  }

  /** What one line does to the object being built. */
  function Step(o: Object, line: string): (r: Object)
    requires o.Valid()
    ensures r.Valid()
  {
    match ParseLine(line)
    case None => o
    case Some((key, value)) => Put(o, key, value)
  }

  /** The object built from `{}` by the lines in order. */
  function ParseLines(lines: seq<string>): (r: Object)
    ensures r.Valid()
  {
    if lines == [] then Empty()
    else Step(ParseLines(lines[..|lines| - 1]), lines[|lines| - 1])
  }

  /** The configuration read from the whole text of the file. */
  function Parse(text: string): (r: Object)
    ensures r.Valid()
  {
    ParseLines(Split(text, '\n'))
  }

  /** The `key=value` lines, one per own property, in Object.entries order. */
  function EntryLines(o: Object): seq<string>
    requires o.Valid()
  {
    seq(|o.keys|, i requires 0 <= i < |o.keys| => o.keys[i] + "=" + o.props[o.keys[i]])
  }

  /** The text saveEnv writes: the entry lines joined by line feeds, with no
      line feed after the last. */
  function Serialize(o: Object): (r: string)
    requires o.Valid()
    ensures r == [] <==> o.keys == []
  {
    var lines := EntryLines(o);
    assert lines != [] ==> lines[0] != [] by {
      if lines != [] { assert lines[0] == o.keys[0] + "=" + o.props[o.keys[0]]; }
    }
    assert lines != [] ==> |Join(lines, "\n")| >= |lines[0]| by {
      if |lines| > 1 { assert Join(lines, "\n") == lines[0] + "\n" + Join(lines[1..], "\n"); }
    }
    Join(lines, "\n")
  }

  /** The variables validation insists on. */
  const RequiredVars: seq<string> := ["GH_TOKEN"]

  /** `r` is `s` with some elements left out, the rest in their order. */
  ghost predicate IsSubsequence(r: seq<string>, s: seq<string>)
    decreases |s|
  {
    if r == [] then true
    else if s == [] then false
    else if r[0] == s[0] then IsSubsequence(r[1..], s[1..])
    else IsSubsequence(r, s[1..])
  }

  /** `required.filter(name => !config[name])`: the required names, in order
      and with their repetitions, whose value is missing or empty. */
  function MissingVars(o: Object, required: seq<string>): (r: seq<string>)
    ensures forall v :: v in r <==> v in required && !Truthy(Lookup(o, v))
    ensures IsSubsequence(r, required)
    ensures forall v :: multiset(r)[v] == if Truthy(Lookup(o, v)) then 0 else multiset(required)[v]
    ensures |r| <= |required|
  {
    if required == [] then []
    else
      var rest := MissingVars(o, required[1..]);
      assert forall v :: v in required <==> v == required[0] || v in required[1..];
      assert required == [required[0]] + required[1..];
      assert multiset(required) == multiset{required[0]} + multiset(required[1..]);
      if Truthy(Lookup(o, required[0])) then
        assert rest != [] ==> rest[0] != required[0] by {
          if rest != [] { assert rest[0] in rest; }
        }
        assert IsSubsequence(rest, required) by {
          if rest != [] { assert IsSubsequence(rest, required) == IsSubsequence(rest, required[1..]); }
        }
        rest
      else
        var r := [required[0]] + rest;
        assert r[1..] == rest;
        assert multiset(r) == multiset{required[0]} + multiset(rest);
        assert IsSubsequence(r, required) == IsSubsequence(rest, required[1..]);
        r
  }

  /** The warnings validateConfig prints: none when no required variable is
      missing, otherwise the list of the missing ones and a hint. */
  function Warnings(o: Object): (w: seq<string>)
    ensures w != [] <==> !Truthy(Lookup(o, "GH_TOKEN"))
    ensures w != [] ==> |w| == 2 && w[0] == "Missing required environment variables: GH_TOKEN"
  {
    var missing := MissingVars(o, RequiredVars);
    assert "GH_TOKEN" in RequiredVars;
    if |missing| > 0 then
      [ "Missing required environment variables: " + Join(missing, ", "),
        "Please update your .env file with the required values." ]
    else []
  }

  // ---------------------------------------------------------------------
  // Reading a single line

  /** A line with exactly one `=`: its entry is the trimmed text before and the
      trimmed text after it, when both are non-empty (a line starting with `#`
      is covered by ParseLine's contract). */
  lemma ParseLineOneEquals(pre: string, mid: string)
    requires '=' !in pre && '=' !in mid && (pre == [] || pre[0] != '#')
    ensures ParseLine(pre + "=" + mid) ==
      if Trim(pre) != [] && Trim(mid) != [] then Some((Trim(pre), Trim(mid))) else None
  {
    var line := pre + "=" + mid;
    assert line[|pre|] == '=';
    assert !AllWhiteSpace(line) by { assert !IsWhiteSpace(line[|pre|]); }
    assert line[0] != '#' by {
      if pre == [] { assert line[0] == '='; } else { assert line[0] == pre[0]; }
    }
    SplitNone(mid, '=');
    SplitPrefix(pre, '=', mid);
    assert Split(line, '=') == [pre, mid];
  }

  /** The same, with the two trimmed fields given. */
  lemma ParseLineFields(pre: string, mid: string, key: string, value: string)
    requires '=' !in pre && '=' !in mid && (pre == [] || pre[0] != '#')
    requires Trim(pre) == key != [] && Trim(mid) == value != []
    ensures ParseLine(pre + "=" + mid) == Some((key, value))
  {
    ParseLineOneEquals(pre, mid);
  }

  /** A line with a second `=`: everything from the second `=` on is dropped,
      and the entry is as for the text before it. */
  lemma ParseLineTwoEquals(pre: string, mid: string, rest: string)
    requires '=' !in pre && '=' !in mid && (pre == [] || pre[0] != '#')
    ensures ParseLine(pre + "=" + mid + "=" + rest) ==
      if Trim(pre) != [] && Trim(mid) != [] then Some((Trim(pre), Trim(mid))) else None
  {
    var line := pre + "=" + mid + "=" + rest;
    assert line[|pre|] == '=';
    assert !AllWhiteSpace(line) by { assert !IsWhiteSpace(line[|pre|]); }
    assert line[0] != '#' by {
      if pre == [] { assert line[0] == '='; } else { assert line[0] == pre[0]; }
    }
    assert line == pre + "=" + (mid + "=" + rest);
    SplitPrefix(mid, '=', rest);
    SplitPrefix(pre, '=', mid + "=" + rest);
    assert Split(line, '=') == [pre, mid] + Split(rest, '=');
  }

  /** A line written as `key=value` by saveEnv reads back as that entry. */
  lemma ParseEntryLine(key: string, value: string)
    requires Clean(key) && Clean(value) && key[0] != '#'
    ensures ParseLine(key + "=" + value) == Some((key, value))
  {
    TrimOfTrimmed(key);
    TrimOfTrimmed(value);
    ParseLineFields(key, value, key, value);
  }

  /** A line of a CRLF file keeps its carriage return after splitting on line
      feeds; trimming removes it, so the value is the same as with LF endings. */
  lemma ParseCrlfLine(key: string, value: string)
    requires Clean(key) && Clean(value) && key[0] != '#'
    ensures ParseLine(key + "=" + value + "\r") == Some((key, value))
  {
    var mid := value + "\r";
    TrimTrailing(value, "\r");
    TrimOfTrimmed(key);
    ParseLineFields(key, mid, key, value);
    assert key + "=" + value + "\r" == key + "=" + mid;
  }

  /** A `#` comment is recognised only in the first column: an indented line
      whose text starts with `#` is an ordinary entry, its key keeping the `#`. */
  lemma IndentedHashIsNotComment(indent: string, key: string, value: string)
    requires indent != [] && AllWhiteSpace(indent) && Clean(key) && Clean(value)
    ensures ParseLine(indent + key + "=" + value) == Some((key, value))
  {
    var pre := indent + key;
    assert pre[0] == indent[0];
    TrimLeading(indent, key);
    TrimOfTrimmed(value);
    ParseLineFields(pre, value, key, value);
  }

  /** Text after a second `=` is dropped: `A=b=c` gives `A` the value `b`. */
  lemma SecondEqualsTruncates(key: string, value: string, rest: string)
    requires Clean(key) && Clean(value) && key[0] != '#'
    ensures ParseLine(key + "=" + value + "=" + rest) == Some((key, value))
  {
    TrimOfTrimmed(key);
    TrimOfTrimmed(value);
    ParseLineTwoEquals(key, value, rest);
  }

  /** An inline comment after a value is part of the value, as in the
      template's `UPDATE_INTERVAL=14400000 # 4 hours in milliseconds`. */
  lemma InlineCommentIsKept(key: string, value: string, comment: string)
    requires Clean(key) && key[0] != '#' && Clean(value) && Clean(comment)
    ensures ParseLine(key + "=" + value + " # " + comment) == Some((key, value + " # " + comment))
  {
    var v := value + " # " + comment;
    assert v[0] == value[0] && v[|v| - 1] == comment[|comment| - 1];
    assert forall c :: c in v ==> c in value || c in " # " || c in comment;
    ParseEntryLine(key, v);
    assert key + "=" + value + " # " + comment == key + "=" + v;
  }

  // ---------------------------------------------------------------------
  // Reading the whole file

  /** Duplicate keys: the value of a key is the one on the last line that
      defines it. */
  lemma {:induction false} LastWins(lines: seq<string>, i: nat, key: string, value: string)
    requires i < |lines| && ParseLine(lines[i]) == Some((key, value)) && key != ProtoKey
    requires forall j :: i < j < |lines| ==>
      ParseLine(lines[j]).None? || ParseLine(lines[j]).value.0 != key
    ensures Lookup(ParseLines(lines), key) == Str(value)
  {
    var n := |lines|;
    var front := lines[..n - 1];
    var prev := ParseLines(front);
    assert ParseLines(lines) == Step(prev, lines[n - 1]);
    if i == n - 1 {
      StepDefines(prev, lines[n - 1], key, value);
    } else {
      assert front[i] == lines[i];
      assert forall j :: i < j < n - 1 ==> front[j] == lines[j];
      LastWins(front, i, key, value);
      StepOther(prev, lines[n - 1], key);
    }
  }

  /** A line that defines `key` sets it. */
  lemma StepDefines(o: Object, line: string, key: string, value: string)
    requires o.Valid() && ParseLine(line) == Some((key, value)) && key != ProtoKey
    ensures Lookup(Step(o, line), key) == Str(value)
  {
    assert Step(o, line) == Put(o, key, value);
  }

  /** A line that does not define `key` leaves it as it was. */
  lemma StepOther(o: Object, line: string, key: string)
    requires o.Valid()
    requires ParseLine(line).None? || ParseLine(line).value.0 != key
    ensures key in Step(o, line).props <==> key in o.props
    ensures Lookup(Step(o, line), key) == Lookup(o, key)
  {
    var e := ParseLine(line);
    if e.Some? {
      assert Step(o, line) == Put(o, e.value.0, e.value.1);
    }
  }

  /** A key that no line defines is not an own property of the result; reading
      it gives what it gives on `{}`. */
  lemma {:induction false} NeverDefined(lines: seq<string>, key: string)
    requires forall j :: 0 <= j < |lines| ==>
      ParseLine(lines[j]).None? || ParseLine(lines[j]).value.0 != key
    ensures key !in ParseLines(lines).props
    ensures Lookup(ParseLines(lines), key) == Lookup(Empty(), key)
  {
    var n := |lines|;
    if n > 0 {
      var front := lines[..n - 1];
      assert forall j :: 0 <= j < n - 1 ==> front[j] == lines[j];
      NeverDefined(front, key);
      assert ParseLines(lines) == Step(ParseLines(front), lines[n - 1]);
      StepOther(ParseLines(front), lines[n - 1], key);
    }
  }

  /** Every entry read from line-feed-free lines is clean. */
  lemma {:induction false} ParsedLinesClean(lines: seq<string>)
    requires forall j :: 0 <= j < |lines| ==> '\n' !in lines[j]
    ensures forall k :: k in ParseLines(lines).props ==>
      Clean(k) && Clean(ParseLines(lines).props[k])
  {
    var n := |lines|;
    if n > 0 {
      var front := lines[..n - 1];
      assert forall j :: 0 <= j < n - 1 ==> front[j] == lines[j];
      ParsedLinesClean(front);
      var prev := ParseLines(front);
      var r := ParseLines(lines);
      assert r == Step(prev, lines[n - 1]);
      var e := ParseLine(lines[n - 1]);
      if e.Some? {
        var key, value := e.value.0, e.value.1;
        assert Clean(key) && Clean(value);
        assert r == Put(prev, key, value);
        forall k | k in r.props ensures Clean(k) && Clean(r.props[k]) {
          assert Lookup(r, k) == Str(r.props[k]);
          if k == key && key != ProtoKey {
            assert Lookup(r, k) == Str(value);
          } else if k != key {
            assert Lookup(r, k) == Lookup(prev, k);
          }
        }
      }
    }
  }

  /** Every key and value in a loaded configuration is clean. */
  lemma ParsedClean(text: string)
    ensures forall k :: k in Parse(text).props ==> Clean(k) && Clean(Parse(text).props[k])
  {
    ParsedLinesClean(Split(text, '\n'));
  }

  // ---------------------------------------------------------------------
  // Writing the file and reading it back

  /** Entries with clean keys and values whose keys do not start with `#`. */
  ghost predicate RoundTrips(o: Object) {
    forall k :: k in o.props ==> Clean(k) && Clean(o.props[k]) && k[0] != '#'
  }

  /** The object that holds the first `n` own properties of `o`. */
  function Prefix(o: Object, n: nat): (r: Object)
    requires o.Valid() && n <= |o.keys|
    ensures r.Valid()
  {
    var keys := o.keys[..n];
    assert forall i :: 0 <= i < n ==> keys[i] == o.keys[i];
    Object(keys, map k | k in keys :: o.props[k])
  }

  /** Creating the next property of `o` on its first `n - 1` gives the first `n`. */
  lemma PutNextKey(o: Object, n: nat)
    requires o.Valid() && 0 < n <= |o.keys|
    ensures o.keys[n - 1] in o.props
    ensures Put(Prefix(o, n - 1), o.keys[n - 1], o.props[o.keys[n - 1]]) == Prefix(o, n)
  {
    var prev := Prefix(o, n - 1);
    var key := o.keys[n - 1];
    assert key in o.props;
    var value := o.props[key];
    assert key != ProtoKey;
    assert forall i :: 0 <= i < n - 1 ==> prev.keys[i] == o.keys[i];
    assert key !in prev.props;
    assert forall i :: 0 <= i < n - 1 ==> Before(prev.keys[i], key);
    assert o.keys[..n] == prev.keys + [key];
    assert InsertKey(prev.keys, key) == o.keys[..n];
    assert prev.props[key := value] == Prefix(o, n).props;
  }

  /** Reading the first `n` written lines rebuilds the first `n` properties. */
  lemma {:induction false} ReadWrittenPrefix(o: Object, n: nat)
    requires o.Valid() && RoundTrips(o) && n <= |o.keys|
    ensures ParseLines(EntryLines(o)[..n]) == Prefix(o, n)
  {
    if n == 0 {
      assert EntryLines(o)[..0] == [];
      assert Prefix(o, 0) == Empty();
    } else {
      var lines := EntryLines(o)[..n];
      assert lines[..n - 1] == EntryLines(o)[..n - 1];
      ReadWrittenPrefix(o, n - 1);
      PutNextKey(o, n);
      var key := o.keys[n - 1];
      var value := o.props[key];
      assert lines[n - 1] == key + "=" + value;
      ParseEntryLine(key, value);
    }
  }

  /** Round trip: writing a configuration whose keys and values are clean and
      whose keys do not start with `#`, then reading the text, gives back
      the same object, key order included. */
  lemma WriteThenRead(o: Object)
    requires o.Valid() && RoundTrips(o)
    ensures Parse(Serialize(o)) == o
  {
    if o.keys == [] {
      assert o.props == map[];
      assert o == Empty();
      ReadEmptyText();
    } else {
      SerializeLines(o);
      ReadWrittenPrefix(o, |o.keys|);
      assert EntryLines(o)[..|o.keys|] == EntryLines(o);
      PrefixAll(o);
    }
  }

  /** The whole prefix is the object itself. */
  lemma PrefixAll(o: Object)
    requires o.Valid()
    ensures Prefix(o, |o.keys|) == o
  {
    assert o.keys[..|o.keys|] == o.keys;
    assert Prefix(o, |o.keys|).props == o.props;
  }

  /** Splitting the saved text at line feeds gives back exactly one
      `key=value` line per property, in order, with no empty last line,
      when no key or value holds a line feed. */
  lemma SerializeLines(o: Object)
    requires o.Valid() && o.keys != []
    requires forall k :: k in o.props ==> '\n' !in k && '\n' !in o.props[k]
    ensures Split(Serialize(o), '\n') == EntryLines(o)
  {
    var lines := EntryLines(o);
    forall i | 0 <= i < |lines| ensures '\n' !in lines[i] {
      assert o.keys[i] in o.props;
      assert lines[i] == o.keys[i] + "=" + o.props[o.keys[i]];
    }
    assert "\n" == ['\n'];
    SplitJoin(lines, '\n');
  }

  /** `set` followed by a restart: the saved file loads as the configuration
      that `set` produced, so the new value is read back, as long as the
      configuration round-trips and the new entry is clean. */
  lemma SetSurvivesReload(o: Object, key: string, value: string)
    requires o.Valid() && RoundTrips(o)
    requires Clean(key) && Clean(value) && key[0] != '#'
    ensures Parse(Serialize(Put(o, key, value))) == Put(o, key, value)
    ensures key != ProtoKey ==> Lookup(Parse(Serialize(Put(o, key, value))), key) == Str(value)
  {
    var r := Put(o, key, value);
    forall k | k in r.props ensures Clean(k) && Clean(r.props[k]) && k[0] != '#' {
      assert Lookup(r, k) == Str(r.props[k]);
      if k == key && key != ProtoKey {
        assert Lookup(r, k) == Str(value);
      } else if k != key {
        assert Lookup(r, k) == Lookup(o, k);
      }
    }
    WriteThenRead(r);
  }

  /** An empty file reads as `{}`. */
  lemma ReadEmptyText()
    ensures Parse([]) == Empty()
  {
    var blank: seq<string> := [[]];
    assert Split([], '\n') == blank;
    assert blank[..0] == [];
    assert ParseLine([]) == None;
    assert ParseLines(blank) == Step(Empty(), []);
  }

  /** Loading, saving and loading again changes nothing, as long as no loaded
      key starts with `#`. */
  lemma ReadWriteRead(text: string)
    requires forall k :: k in Parse(text).props ==> k != [] && k[0] != '#'
    ensures Parse(Serialize(Parse(text))) == Parse(text)
  {
    ParsedClean(text);
    WriteThenRead(Parse(text));
  }

  /** A text of one line reads as what that line gives on `{}`. */
  lemma ReadOneLine(line: string)
    requires '\n' !in line
    ensures Parse(line) == Step(Empty(), line)
  {
    SplitNone(line, '\n');
    assert [line][..0] == [];
  }

  /** The proviso of ReadWriteRead is needed: an indented `#` line is loaded
      as an entry, saved unindented, and then skipped as a comment. */
  lemma IndentedHashLostOnReread(indent: string, key: string, value: string)
    requires indent != [] && AllWhiteSpace(indent) && '\n' !in indent
    requires Clean(key) && Clean(value) && key[0] == '#'
    ensures Lookup(Parse(indent + key + "=" + value), key) == Str(value)
    ensures Parse(Serialize(Parse(indent + key + "=" + value))) == Empty()
  {
    IndentedHashLoaded(indent, key, value);
    var loaded := Object([key], map[key := value]);
    var written := key + "=" + value;
    assert EntryLines(loaded) == [written];
    assert Serialize(loaded) == written;
    assert '\n' !in written && written[0] == '#';
    ReadOneLine(written);
  }

  /** The load half of IndentedHashLostOnReread. */
  lemma IndentedHashLoaded(indent: string, key: string, value: string)
    requires indent != [] && AllWhiteSpace(indent) && '\n' !in indent
    requires Clean(key) && Clean(value) && key[0] == '#'
    ensures Parse(indent + key + "=" + value) == Object([key], map[key := value])
  {
    var text := indent + key + "=" + value;
    assert '\n' !in text;
    ReadOneLine(text);
    IndentedHashIsNotComment(indent, key, value);
    assert !IsArrayIndex(key) by { assert !IsDigit(key[0]); }
    assert key != ProtoKey by { assert ProtoKey[0] != key[0]; }
    assert Parse(text) == Put(Empty(), key, value);
  }
}
