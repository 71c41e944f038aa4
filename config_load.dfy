/** What `Tracker.load_config` computes from the lines of a configuration
    file. Each line is first taken apart (`line.split(":")` and `strip()` of
    the first two fields); the loop then fills the dictionary from the parts.
    `Load` is the reference definition the imperative loop is proved
    against, and the lemmas state what the dictionary and the outcome are. */
module ConfigLoad {
  import opened PyStr

  const Colon: char := ':'

  datatype Option<T> = None | Some(value: T)

  /** How a load ends. `DuplicateAbort` is the early `return` after the
      "repeated key" message; `MissingColon` is the `IndexError` raised by
      `splitted[1]` on a line without a colon, which leaves the method. */
  datatype Outcome = Ok | DuplicateAbort(key: string) | MissingColon(lineIndex: nat)

  /** The dictionary `self.config` as the load leaves it, and how it ended. */
  datatype LoadResult = LoadResult(config: map<string, string>, outcome: Outcome)

  /** One line taken apart: the stripped first field, and the stripped second
      field when the line has one (`None` is where `splitted[1]` fails). */
  datatype ParsedLine = ParsedLine(key: string, value: Option<string>)

  /** `splitted = line.split(":")`, then the first field stripped as the
      key and the second field, if any, stripped as the value. */
  function ParseLine(line: string): ParsedLine
  {
    var splitted := Split(line, Colon);
    ParsedLine(Strip(splitted[0]), if |splitted| >= 2 then Some(Strip(splitted[1])) else None)
  }

  /** The key is the text before the first colon and the value the text
      between the first colon and the next one (or the end of the line),
      both stripped; text after a second colon is dropped. A line has a
      value exactly when it has a colon. */
  lemma ParseLineFields(line: string)
    ensures var p := ParseLine(line);
            var c := IndexOf(line, Colon);
            && p.key == Strip(line[..c])
            && (p.value.Some? <==> Colon in line)
            && (p.value.Some? ==>
                  var rest := line[c + 1..];
                  p.value.value == Strip(rest[..IndexOf(rest, Colon)]))
  {
    SplitFields(line, Colon);
    var c := IndexOf(line, Colon);
    if c < |line| {
      var rest := line[c + 1..];
      var d := IndexOf(rest, Colon);
      assert Split(line, Colon)[1] == Split(rest, Colon)[0];
      if d == |rest| {
        assert rest[..d] == rest;
      }
    } else {
      assert line[..c] == line;
    }
  }

  /** The parts of every line, in file order. */
  function ParseAll(lines: seq<string>): (ps: seq<ParsedLine>)
    ensures |ps| == |lines|
  {
    if lines == [] then [] else [ParseLine(lines[0])] + ParseAll(lines[1..])
  }

  lemma {:induction false} ParseAllAt(lines: seq<string>, i: nat)
    requires i < |lines|
    ensures ParseAll(lines)[i] == ParseLine(lines[i])
  {
    if i > 0 {
      ParseAllAt(lines[1..], i - 1);
    }
  }

  /** The loop of `load_config` from line `i` on, with `config` the
      dictionary built from the lines before it. The duplicate test comes
      before the access to the second field, as in the source, so a line
      without a colon whose key is already stored counts as a duplicate. */
  function LoadFrom(config: map<string, string>, ps: seq<ParsedLine>, i: nat): LoadResult
    requires i <= |ps|
    decreases |ps| - i
  {
    if i == |ps| then LoadResult(config, Ok)
    else if ps[i].key in config then LoadResult(config, DuplicateAbort(ps[i].key))
    else if ps[i].value.None? then LoadResult(config, MissingColon(i))
    else LoadFrom(config[ps[i].key := ps[i].value.value], ps, i + 1)
  }

  /** The loop run over a whole file, starting from the empty dictionary. */
  function LoadParsed(ps: seq<ParsedLine>): LoadResult
  {
    LoadFrom(map[], ps, 0)
  }

  /** A whole load: the dictionary starts empty whatever it held before. */
  function Load(lines: seq<string>): LoadResult
  {
    LoadParsed(ParseAll(lines))
  }

  /** The keys of the first `n` lines. */
  ghost function KeysBefore(ps: seq<ParsedLine>, n: nat): set<string>
    requires n <= |ps|
    decreases n
  {
    if n == 0 then {} else KeysBefore(ps, n - 1) + {ps[n - 1].key}
  }

  /** Every one of the first `n` lines has a value and a key that no earlier
      line has: the lines the loop can store one after the other. */
  ghost predicate Clean(ps: seq<ParsedLine>, n: nat)
    requires n <= |ps|
    decreases n
  {
    n == 0 || (Clean(ps, n - 1) && ps[n - 1].value.Some? && ps[n - 1].key !in KeysBefore(ps, n - 1))
  }

  /** `config` holds exactly one entry per line among the first `n`, each
      mapping that line's key to that line's value. */
  ghost predicate Holds(config: map<string, string>, ps: seq<ParsedLine>, n: nat)
  {
    && n <= |ps|
    && Clean(ps, n)
    && |config| == n
    && config.Keys == KeysBefore(ps, n)
    && forall j :: 0 <= j < n ==> ps[j].key in config && ps[j].value == Some(config[ps[j].key])
  }

  /** A key is among the first `n` keys exactly when one of the first `n`
      lines has it. */
  lemma {:induction false} KeysBeforeMeans(ps: seq<ParsedLine>, n: nat, k: string)
    requires n <= |ps|
    ensures k in KeysBefore(ps, n) <==> exists j :: 0 <= j < n && ps[j].key == k
    decreases n
  {
    if n > 0 {
      KeysBeforeMeans(ps, n - 1, k);
      if ps[n - 1].key == k {
        assert exists j :: 0 <= j < n && ps[j].key == k;
      }
    }
  }

  /** `Clean` spelled out: each of the first `n` lines has a value and a key
      different from the key of every line before it. */
  lemma {:induction false} CleanMeans(ps: seq<ParsedLine>, n: nat)
    requires n <= |ps|
    ensures Clean(ps, n) <==>
              forall j :: 0 <= j < n ==> ps[j].value.Some? && forall h :: 0 <= h < j ==> ps[h].key != ps[j].key
    decreases n
  {
    if n > 0 {
      CleanMeans(ps, n - 1);
      KeysBeforeMeans(ps, n - 1, ps[n - 1].key);
    }
  }

  /** Storing a line with a new key keeps every earlier line's entry. */
  lemma EntriesStep(config: map<string, string>, ps: seq<ParsedLine>, i: nat)
    requires i < |ps| && ps[i].key !in config && ps[i].value.Some?
    requires forall j :: 0 <= j < i ==> ps[j].key in config && ps[j].value == Some(config[ps[j].key])
    ensures var next := config[ps[i].key := ps[i].value.value];
            forall j :: 0 <= j < i + 1 ==> ps[j].key in next && ps[j].value == Some(next[ps[j].key])
  {
    var next := config[ps[i].key := ps[i].value.value];
    forall j | 0 <= j < i + 1
      ensures ps[j].key in next && ps[j].value == Some(next[ps[j].key])
    {
      if j < i {
        assert ps[j].key in config && ps[j].key != ps[i].key;
      }
    }
  }

  /** One turn of the loop that stores a line keeps `Holds`. */
  lemma HoldsStep(config: map<string, string>, ps: seq<ParsedLine>, i: nat)
    requires Holds(config, ps, i) && i < |ps|
    requires ps[i].key !in config && ps[i].value.Some?
    ensures Holds(config[ps[i].key := ps[i].value.value], ps, i + 1)
  {
    var next := config[ps[i].key := ps[i].value.value];
    EntriesStep(config, ps, i);
    assert next.Keys == config.Keys + {ps[i].key};
  }

  /** The characterisation of one load, for any starting point of the loop
      whose dictionary is right for the lines before it. */
  lemma {:induction false} LoadFromStops(config: map<string, string>, ps: seq<ParsedLine>, i: nat)
    requires i <= |ps| && Holds(config, ps, i)
    ensures var r := LoadFrom(config, ps, i);
            var n := |r.config|;
            && i <= n <= |ps|
            && Holds(r.config, ps, n)
            && (r.outcome == Ok <==> n == |ps|)
            && (n < |ps| ==> (r.outcome == DuplicateAbort(ps[n].key) <==> ps[n].key in r.config))
            && (n < |ps| ==> (r.outcome == MissingColon(n) <==> ps[n].key !in r.config))
            && (r.outcome.MissingColon? ==> n < |ps| && ps[n].value.None?)
    decreases |ps| - i
  {
    var r := LoadFrom(config, ps, i);
    if i == |ps| {
      assert r == LoadResult(config, Ok);
    } else if ps[i].key in config {
      assert r == LoadResult(config, DuplicateAbort(ps[i].key));
      assert |r.config| == i;
    } else if ps[i].value.None? {
      assert r == LoadResult(config, MissingColon(i));
      assert |r.config| == i;
    } else {
      var next := config[ps[i].key := ps[i].value.value];
      assert r == LoadFrom(next, ps, i + 1);
      HoldsStep(config, ps, i);
      LoadFromStops(next, ps, i + 1);
      assert i + 1 <= |r.config|;
    }
  }

  /** Where a load stops and what it keeps. With `n` the number of entries
      stored: the first `n` lines each stored their own key and value, with
      no key repeated; the load completes exactly when `n` is the number of
      lines; otherwise line `n` is the one that stopped it, as a repeated key
      if its key is already stored and as a line without a colon if not. */
  lemma LoadStops(ps: seq<ParsedLine>)
    ensures var r := LoadParsed(ps);
            var n := |r.config|;
            && Holds(r.config, ps, n)
            && (r.outcome == Ok <==> n == |ps|)
            && (n < |ps| ==> (r.outcome == DuplicateAbort(ps[n].key) <==> ps[n].key in r.config))
            && (n < |ps| ==> (r.outcome == MissingColon(n) <==> ps[n].key !in r.config))
            && (r.outcome.MissingColon? ==> n < |ps| && ps[n].value.None?)
  {
    LoadFromStops(map[], ps, 0);
  }

  /** When a load stops early, the line it stops at either has no value or
      repeats the key of an earlier line. */
  lemma StopLineIsBad(ps: seq<ParsedLine>)
    ensures var n := |LoadParsed(ps).config|;
            n < |ps| ==> ps[n].value.None? || exists j :: 0 <= j < n && ps[j].key == ps[n].key
  {
    var r := LoadParsed(ps);
    var n := |r.config|;
    LoadStops(ps);
    if n < |ps| {
      KeysBeforeMeans(ps, n, ps[n].key);
    }
  }

  /** A load completes exactly when every line has a colon and no key
      repeats; the dictionary then has one entry per line, keyed by the
      lines' keys. */
  lemma LoadOkIff(ps: seq<ParsedLine>)
    ensures LoadParsed(ps).outcome == Ok <==>
              forall j :: 0 <= j < |ps| ==> ps[j].value.Some? && forall h :: 0 <= h < j ==> ps[h].key != ps[j].key
    ensures LoadParsed(ps).outcome == Ok ==>
              && |LoadParsed(ps).config| == |ps|
              && forall k :: k in LoadParsed(ps).config <==> exists j :: 0 <= j < |ps| && ps[j].key == k
  {
    LoadStops(ps);
    StopLineIsBad(ps);
    CleanMeans(ps, |LoadParsed(ps).config|);
    forall k {
      KeysBeforeMeans(ps, |LoadParsed(ps).config|, k);
    }
  }

  /** A stored key comes from a stored line, the first one with that key. */
  lemma StoredKeyLine(config: map<string, string>, ps: seq<ParsedLine>, n: nat, k: string)
    requires Holds(config, ps, n) && k in config
    ensures exists j :: 0 <= j < n && ps[j].key == k && ps[j].value == Some(config[k])
                        && forall h :: 0 <= h < j ==> ps[h].key != k
  {
    KeysBeforeMeans(ps, n, k);
    CleanMeans(ps, n);
    var j :| 0 <= j < n && ps[j].key == k;
  }

  /** Each stored key maps to the value of the first line that has that key,
      and no key of a stored line was seen on an earlier line. */
  lemma LoadKeepsFirst(ps: seq<ParsedLine>, k: string)
    requires k in LoadParsed(ps).config
    ensures exists j :: 0 <= j < |ps| && ps[j].key == k && ps[j].value == Some(LoadParsed(ps).config[k])
                        && forall h :: 0 <= h < j ==> ps[h].key != k
  {
    LoadStops(ps);
    StoredKeyLine(LoadParsed(ps).config, ps, |LoadParsed(ps).config|, k);
  }

  /** At a repeated key the earlier value stays: the aborting line's own
      value is never stored, and it is the line right after the stored ones. */
  lemma DuplicateKeepsEarlierValue(ps: seq<ParsedLine>, k: string)
    requires LoadParsed(ps).outcome == DuplicateAbort(k)
    ensures var c := LoadParsed(ps).config;
            && |c| < |ps| && ps[|c|].key == k && k in c
            && exists j :: 0 <= j < |c| && ps[j].key == k && ps[j].value == Some(c[k])
  {
    LoadStops(ps);
    StoredKeyLine(LoadParsed(ps).config, ps, |LoadParsed(ps).config|, k);
  }

  /** A line without a value that the loop reaches with a new key ends the
      load there, with the dictionary built from the lines before it. */
  lemma ColonlessLineFails(ps: seq<ParsedLine>, n: nat)
    requires n < |ps|
    requires forall j :: 0 <= j < n ==> ps[j].value.Some? && forall h :: 0 <= h < j ==> ps[h].key != ps[j].key
    requires ps[n].value.None?
    requires forall j :: 0 <= j < n ==> ps[j].key != ps[n].key
    ensures LoadParsed(ps).outcome == MissingColon(n)
    ensures |LoadParsed(ps).config| == n
    ensures Holds(LoadParsed(ps).config, ps, n)
  {
    LoadStops(ps);
    StopLineIsBad(ps);
    CleanMeans(ps, |LoadParsed(ps).config|);
    KeysBeforeMeans(ps, |LoadParsed(ps).config|, ps[n].key);
  }

  /** Lines after the one that stopped a load are never read. */
  lemma {:induction false} LoadFromIgnoresLater(config: map<string, string>, ps: seq<ParsedLine>, extra: seq<ParsedLine>, i: nat)
    requires i <= |ps|
    requires LoadFrom(config, ps, i).outcome != Ok
    ensures LoadFrom(config, ps + extra, i) == LoadFrom(config, ps, i)
    decreases |ps| - i
  {
    assert (ps + extra)[i] == ps[i];
    if ps[i].key !in config && ps[i].value.Some? {
      LoadFromIgnoresLater(config[ps[i].key := ps[i].value.value], ps, extra, i + 1);
    }
  }

  lemma LoadIgnoresLater(ps: seq<ParsedLine>, extra: seq<ParsedLine>)
    requires LoadParsed(ps).outcome != Ok
    ensures LoadParsed(ps + extra) == LoadParsed(ps)
  {
    LoadFromIgnoresLater(map[], ps, extra, 0);
  }

  /** Two dictionaries that hold the same lines are the same dictionary. */
  lemma HoldsUnique(c1: map<string, string>, c2: map<string, string>, ps: seq<ParsedLine>, n: nat)
    requires Holds(c1, ps, n) && Holds(c2, ps, n)
    ensures c1 == c2
  {
    forall k | k in c1
      ensures c1[k] == c2[k]
    {
      KeysBeforeMeans(ps, n, k);
      var j :| 0 <= j < n && ps[j].key == k;
    }
  }

  /** `Holds` only looks at the lines it covers. */
  lemma HoldsPrefix(config: map<string, string>, ps: seq<ParsedLine>, n: nat)
    requires Holds(config, ps, n)
    ensures Holds(config, ps[..n], n)
  {
    SameLines(ps[..n], ps, n);
  }

  /** `KeysBefore` and `Clean` only look at the first `n` lines. */
  lemma {:induction false} SameLines(ps: seq<ParsedLine>, qs: seq<ParsedLine>, n: nat)
    requires n <= |ps| && n <= |qs|
    requires forall j :: 0 <= j < n ==> ps[j] == qs[j]
    ensures KeysBefore(ps, n) == KeysBefore(qs, n)
    ensures Clean(ps, n) == Clean(qs, n)
    decreases n
  {
    if n > 0 {
      SameLines(ps, qs, n - 1);
    }
  }

  /** After an abort the dictionary is exactly what loading the lines before
      the stopping line alone would give. */
  lemma AbortKeepsPrefix(ps: seq<ParsedLine>)
    requires LoadParsed(ps).outcome != Ok
    ensures var n := |LoadParsed(ps).config|;
            n < |ps| && LoadParsed(ps[..n]) == LoadResult(LoadParsed(ps).config, Ok)
  {
    var c := LoadParsed(ps).config;
    var n := |c|;
    LoadStops(ps);
    var pre := ps[..n];
    HoldsPrefix(c, ps, n);
    CleanMeans(pre, n);
    LoadOkIff(pre);
    LoadStops(pre);
    HoldsUnique(c, LoadParsed(pre).config, pre, n);
  }

  /** A blank line (only a line break) has the empty key and no value. */
  lemma BlankLineParse()
    ensures ParseLine("\n") == ParsedLine("", None)
  {
    var none: string := [];
    assert AllWhitespace("\n");
    assert "\n" + none + none == "\n";
    StripUnique("\n", none, none);
    assert "\n"[..1] == "\n";
  }

  /** A file whose only line is blank: the load fails there with nothing
      stored. */
  lemma BlankLineAborts()
    ensures Load(["\n"]) == LoadResult(map[], MissingColon(0))
  {
    BlankLineParse();
  }

  /** One stored line in terms of its own text. */
  lemma LoadLineStored(lines: seq<string>, j: nat)
    requires j < |Load(lines).config|
    ensures var r := Load(lines);
            && j < |lines|
            && Colon in lines[j]
            && ParseLine(lines[j]).key in r.config
            && ParseLine(lines[j]).value == Some(r.config[ParseLine(lines[j]).key])
  {
    var ps := ParseAll(lines);
    LoadStops(ps);
    ParseAllAt(lines, j);
    assert ps[j].value.Some?;
  }

  /** The stored lines in terms of their own text: each of the lines before
      the stopping point has a colon and stored its own key and value. */
  lemma LoadLinesStored(lines: seq<string>)
    ensures var r := Load(lines);
            && |r.config| <= |lines|
            && forall j :: 0 <= j < |r.config| ==>
                 && Colon in lines[j]
                 && ParseLine(lines[j]).key in r.config
                 && ParseLine(lines[j]).value == Some(r.config[ParseLine(lines[j]).key])
  {
    LoadStops(ParseAll(lines));
    forall j | 0 <= j < |Load(lines).config| {
      LoadLineStored(lines, j);
    }
  }

  /** The stopping line in terms of its own text: a load that fails on a
      missing colon names the first line after the stored ones, and that line
      has no colon; a duplicate is reported under that line's key. */
  lemma LoadLinesStop(lines: seq<string>)
    ensures var r := Load(lines);
            var n := |r.config|;
            && (r.outcome == Ok <==> n == |lines|)
            && (r.outcome.MissingColon? ==> r.outcome.lineIndex == n < |lines| && Colon !in lines[n])
            && (r.outcome.DuplicateAbort? ==> n < |lines| && r.outcome.key == ParseLine(lines[n]).key)
  {
    var ps := ParseAll(lines);
    var n := |Load(lines).config|;
    LoadStops(ps);
    if n < |lines| {
      ParseAllAt(lines, n);
    }
  }

  /** A line `f0:f1` followed by nothing or by another colon. */
  lemma ParseFields(f0: string, f1: string, more: string)
    requires Colon !in f0 && Colon !in f1
    requires more == [] || more[0] == Colon
    ensures ParseLine(f0 + [Colon] + f1 + more) == ParsedLine(Strip(f0), Some(Strip(f1)))
  {
    var line := f0 + [Colon] + f1 + more;
    var tail := Split(f1 + more, Colon);
    assert Split(line, Colon) == [f0] + tail by {
      assert line == f0 + [Colon] + (f1 + more);
      SplitField(f0, f1 + more, Colon);
    }
    FirstField(f1, more);
    assert ([f0] + tail)[1] == f1;
  }

  /** A separator-free field followed by nothing or by the separator is
      the first field of the split. */
  lemma FirstField(f: string, more: string)
    requires Colon !in f
    requires more == [] || more[0] == Colon
    ensures Split(f + more, Colon)[0] == f
  {
    if more == [] {
      assert f + more == f;
      SplitNoSep(f, Colon);
    } else {
      var t := more[1..];
      assert f + more == f + [Colon] + t;
      SplitField(f, t, Colon);
    }
  }

  /** A line without a colon. */
  lemma ParseNoColon(f0: string)
    requires Colon !in f0
    ensures ParseLine(f0) == ParsedLine(Strip(f0), None)
  {
    SplitNoSep(f0, Colon);
  }

  /** A `key: value` line ending in a line break, with a trimmed key and
      value. */
  lemma KeyValueLine(k: string, v: string)
    requires Colon !in k && Colon !in v && Trimmed(k) && Trimmed(v)
    ensures ParseLine(k + ": " + v + "\n") == ParsedLine(k, Some(v))
  {
    var none: string := [];
    var f1 := " " + v + "\n";
    var line := k + ": " + v + "\n";
    assert Split(line, Colon) == [k, f1] by {
      assert Colon !in f1;
      assert line == k + [Colon] + f1;
      SplitField(k, f1, Colon);
      SplitNoSep(f1, Colon);
    }
    assert Strip(k) == k by {
      StripUnique(none, k, none);
      assert none + k + none == k;
    }
    assert Strip(f1) == v by {
      StripUnique(" ", v, "\n");
    }
  }

  /** A line holding only a trimmed key and a line break. */
  lemma KeyOnlyLine(k: string)
    requires Colon !in k && Trimmed(k)
    ensures ParseLine(k + "\n") == ParsedLine(k, None)
  {
    var none: string := [];
    var line := k + "\n";
    assert Split(line, Colon) == [line] by {
      assert Colon !in line;
      SplitNoSep(line, Colon);
    }
    assert Strip(line) == k by {
      StripUnique(none, k, "\n");
      assert none + k + "\n" == line;
    }
  }

  /** Lines whose parts are `ps` parse to exactly `ps`. */
  lemma ParseAllParts(lines: seq<string>, ps: seq<ParsedLine>)
    requires |ps| == |lines|
    requires forall i :: 0 <= i < |lines| ==> ParseLine(lines[i]) == ps[i]
    ensures ParseAll(lines) == ps
  {
    forall i | 0 <= i < |lines|
      ensures ParseAll(lines)[i] == ps[i]
    {
      ParseAllAt(lines, i);
    }
  }

  /** A load depends on the lines only through their parts. */
  lemma LoadFromParts(lines: seq<string>, ps: seq<ParsedLine>)
    requires |ps| == |lines|
    requires forall i :: 0 <= i < |lines| ==> ParseLine(lines[i]) == ps[i]
    ensures Load(lines) == LoadParsed(ps)
  {
    ParseAllParts(lines, ps);
  }

  /** The lines of the example file below, as text. */
  function ExampleFile(a: string, b: string, c: string, va: string, vb: string, vc: string): (lines: seq<string>)
  {
    [a + ": " + va + "\n", b + ": " + vb + "\n", a + "\n", c + ": " + vc + "\n"]
  }

  /** The parts of each line of the example file. */
  lemma ExampleFileParts(a: string, b: string, c: string, va: string, vb: string, vc: string)
    requires Colon !in a && Colon !in b && Colon !in c && Trimmed(a) && Trimmed(b) && Trimmed(c)
    requires Colon !in va && Colon !in vb && Colon !in vc && Trimmed(va) && Trimmed(vb) && Trimmed(vc)
    ensures ParseAll(ExampleFile(a, b, c, va, vb, vc))
            == [ParsedLine(a, Some(va)), ParsedLine(b, Some(vb)), ParsedLine(a, None), ParsedLine(c, Some(vc))]
    ensures Load(ExampleFile(a, b, c, va, vb, vc))
            == LoadParsed([ParsedLine(a, Some(va)), ParsedLine(b, Some(vb)), ParsedLine(a, None), ParsedLine(c, Some(vc))])
  {
    KeyValueLine(a, va);
    KeyValueLine(b, vb);
    KeyOnlyLine(a);
    KeyValueLine(c, vc);
    ParseAllParts(ExampleFile(a, b, c, va, vb, vc),
                  [ParsedLine(a, Some(va)), ParsedLine(b, Some(vb)), ParsedLine(a, None), ParsedLine(c, Some(vc))]);
  }

  /** A file `a: va`, `b: vb`, `a`, `c: vc` whose third line repeats the key
      `a` without a colon: the repeat is reported (it is tested before the
      missing colon), the dictionary keeps the first value of `a`, and the
      fourth line is never read. */
  lemma DuplicateExample(a: string, b: string, c: string, va: string, vb: string, vc: string)
    requires a != b
    requires Colon !in a && Colon !in b && Colon !in c && Trimmed(a) && Trimmed(b) && Trimmed(c)
    requires Colon !in va && Colon !in vb && Colon !in vc && Trimmed(va) && Trimmed(vb) && Trimmed(vc)
    ensures Load(ExampleFile(a, b, c, va, vb, vc)) == LoadResult(map[a := va, b := vb], DuplicateAbort(a))
  {
    var ps := [ParsedLine(a, Some(va)), ParsedLine(b, Some(vb)), ParsedLine(a, None), ParsedLine(c, Some(vc))];
    ExampleFileParts(a, b, c, va, vb, vc);
    assert LoadFrom(map[], ps, 0) == LoadFrom(map[a := va], ps, 1);
    assert LoadFrom(map[a := va], ps, 1) == LoadFrom(map[a := va, b := vb], ps, 2);
  }
}
