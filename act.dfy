/** mapcat.toolkit.act: ingest of ACT depth-1 maps. The glob result, file existence and
    the datasets of the _info.hdf files are inputs; the module derives the names, paths,
    frequency, tube slot and TOD ctimes the ingest stores. */
module Act {
  import opened Common
  import opened Text
  import opened Paths
  import SkyCoverage

  // ---------------------------------------------------------------- extract_string

  /** str(b) of a bytes value: its content between b' and '. Python writes it this way
      when the content holds no quote and no backslash. */
  function BytesRepr(b: string): string
  {
    "b'" + b + "'"
  }

  /** A text of the form str(b) for a bytes value b. */
  predicate IsBytesRepr(s: string)
  {
    |s| >= 3 && s[..2] == "b'" && s[|s| - 1] == '\''
  }

  /** extract_string as written: every "b'" is removed, then every "'". */
  function ExtractStringAsWritten(s: string): string
  {
    ReplaceAll(ReplaceAll(s, "b'", ""), "'", "")
  }

  /** The output of extract_string never holds an apostrophe. */
  lemma AsWrittenHasNoQuote(s: string)
    ensures '\'' !in ExtractStringAsWritten(s)
  {
    ReplaceAllRemovesChar(ReplaceAll(s, "b'", ""), '\'', "");
  }

  /** A text without an apostrophe passes through extract_string unchanged. */
  lemma AsWrittenKeepsQuoteFree(s: string)
    requires '\'' !in s
    ensures ExtractStringAsWritten(s) == s
  {
    AbsentCharNotContained(s, "b'", 1);
    ReplaceAllAbsent(s, "b'", "");
    AbsentCharNotContained(s, "'", 0);
    ReplaceAllAbsent(s, "'", "");
  }

  /** The bytes content comes back whenever it holds no apostrophe and does not end
      in 'b'. */
  lemma AsWrittenRecovers(b: string)
    requires '\'' !in b && (b == "" || b[|b| - 1] != 'b')
    ensures ExtractStringAsWritten(BytesRepr(b)) == b
  {
    var s := BytesRepr(b);
    var t := b + "'";
    assert s[..2] == "b'" && s[2..] == t;
    assert ReplaceAll(s, "b'", "") == ReplaceAll(t, "b'", "");
    forall i | 0 <= i <= |t| ensures !OccursAt(t, "b'", i) {
      if i + 2 <= |t| {
        assert t[i..i + 2][0] == t[i] && t[i..i + 2][1] == t[i + 1];
        if i + 1 < |b| {
          assert t[i + 1] == b[i + 1];
        } else {
          assert t[i] == b[|b| - 1];
        }
      }
    }
    ReplaceAllAbsent(t, "b'", "");
    AbsentCharNotContained(b, "'", 0);
    StripAppended(b, "'");
  }

  /** The bytes b"ab" come out as "a": the "b'" formed by the last content character and
      the closing quote is removed along with the opening one. */
  lemma AsWrittenDropsTrailingB()
    ensures ExtractStringAsWritten(BytesRepr("ab")) == "a"
  {
    var s := BytesRepr("ab");
    assert s == "b'ab'";
    var t := s[2..];
    assert s[..2] == "b'" && t == "ab'";
    var u := t[1..];
    assert t[..2][0] == 'a' && u == "b'";
    assert u[..2] == u && u[2..] == "";
    assert ReplaceAll(u, "b'", "") == "";
    assert ReplaceAll(t, "b'", "") == "a";
    var once := ReplaceAll(s, "b'", "");
    assert once == "a";
    assert once[..1] == "a" && once[1..] == "";
  }

  /** extract_string as intended: the content of a bytes text; any other text loses its
      "b'" and "'" as before. */
  function ExtractString(s: string): (r: string)
    ensures IsBytesRepr(s) ==> BytesRepr(r) == s
    ensures '\'' !in s ==> r == s
  {
    if IsBytesRepr(s) then s[2..|s| - 1]
    else if '\'' in s then ExtractStringAsWritten(s)
    else
      AsWrittenKeepsQuoteFree(s);
      ExtractStringAsWritten(s)
  }

  /** Every bytes value comes back from its text. */
  lemma ExtractStringOfBytes(b: string)
    ensures ExtractString(BytesRepr(b)) == b
  {
    var s := BytesRepr(b);
    assert IsBytesRepr(s);
    assert s[2..|s| - 1] == b;
  }

  /** The corrected reading and the code agree on every bytes value whose content holds
      no apostrophe and does not end in 'b'; they differ only past that. */
  lemma ExtractStringAgrees(b: string)
    requires '\'' !in b && (b == "" || b[|b| - 1] != 'b')
    ensures ExtractString(BytesRepr(b)) == ExtractStringAsWritten(BytesRepr(b)) == b
  {
    ExtractStringOfBytes(b);
    AsWrittenRecovers(b);
  }

  // ---------------------------------------------------------------- parse_info_file

  /** The datasets of an _info.hdf file that the ingest reads; a string dataset is held as
      the text str() gives for its value. */
  datatype InfoFile = InfoFile(
    band: Option<string>,
    detset: Option<string>,
    arrayName: Option<string>,
    ids: Option<seq<string>>,
    period: Option<seq<real>>,
    t: Option<real>,
    box: Option<SkyCoverage.Box>)

  /** The dictionary parse_info_file returns. */
  datatype Info = Info(
    frequency: string,
    tubeSlot: string,
    observations: seq<string>,
    startTime: real,
    stopTime: real,
    ctime: real,
    box: SkyCoverage.Box)

  /** The old SO layout names the band and the detector set. */
  predicate OldFormat(f: InfoFile)
  {
    f.band.Some? && f.detset.Some?
  }

  /** The datasets read after frequency and tube slot are all there. */
  predicate HasCommonFields(f: InfoFile)
  {
    f.ids.Some? && f.period.Some? && |f.period.value| >= 2 && f.t.Some? && f.box.Some?
  }

  /** The observation ids, each through extract_string. */
  function Observations(ids: seq<string>): (obs: seq<string>)
    ensures |obs| == |ids|
    ensures forall i | 0 <= i < |ids| && IsBytesRepr(ids[i]) :: BytesRepr(obs[i]) == ids[i]
  {
    seq(|ids|, i requires 0 <= i < |ids| => ExtractString(ids[i]))
  }

  /** The entries after frequency and tube slot, read in dictionary order: ids, period[0],
      period[1], t, box. A missing dataset raises KeyError, a short period IndexError. */
  function CommonFields(frequency: string, tubeSlot: string, f: InfoFile): Result<Info>
  {
    if f.ids.None? then Err(KeyError("ids"))
    else if f.period.None? then Err(KeyError("period"))
    else if |f.period.value| < 2 then Err(IndexError("index out of range"))
    else if f.t.None? then Err(KeyError("t"))
    else if f.box.None? then Err(KeyError("box"))
    else Ok(Info(frequency, tubeSlot, Observations(f.ids.value), f.period.value[0],
                 f.period.value[1], f.t.value, f.box.value))
  }

  /** The first two "_" pieces of a text that has a "_": the tube slot, the separator and
      the frequency open the text, and neither piece holds a "_". */
  lemma ArrayPieces(e: string)
    requires '_' in e
    ensures |Split(e, '_')| >= 2
    ensures Split(e, '_')[0] + "_" + Split(e, '_')[1] <= e
    ensures '_' !in Split(e, '_')[0] && '_' !in Split(e, '_')[1]
    ensures var n := |Split(e, '_')[0]| + 1 + |Split(e, '_')[1]|;
      n == |e| || e[n] == '_'
  {
    var pieces := Split(e, '_');
    SplitProperties(e, '_');
    var rest := JoinWith(pieces[1..], '_');
    assert e == pieces[0] + "_" + rest;
    JoinWithStartsWithFirst(pieces[1..], '_');
    assert rest[..|pieces[1]|] == pieces[1];
    assert e[..|pieces[0]| + 1 + |pieces[1]|] == pieces[0] + "_" + pieces[1];
    if |pieces| > 2 {
      var tail := pieces[1..];
      assert rest == tail[0] + ['_'] + JoinWith(tail[1..], '_');
      assert e == pieces[0] + "_" + pieces[1] + ['_'] + JoinWith(tail[1..], '_');
      assert e[|pieces[0]| + 1 + |pieces[1]|] == '_';
    } else {
      assert rest == pieces[1];
    }
  }

  /** Two "_"-free prefixes that each end where a "_" or the text ends are the same. */
  lemma FieldUnique(e: string, a: string, a2: string)
    requires a <= e && a2 <= e && '_' !in a && '_' !in a2
    requires |a| == |e| || e[|a|] == '_'
    requires |a2| == |e| || e[|a2|] == '_'
    ensures a == a2
  {
    PrefixHasNoSep(e, a);
    PrefixHasNoSep(e, a2);
    assert |a| == |a2|;
    assert a == e[..|a|] && a2 == e[..|a2|];
  }

  lemma PrefixHasNoSep(e: string, a: string)
    requires a <= e && '_' !in a
    ensures forall k | 0 <= k < |a| :: e[k] != '_'
  {
    forall k | 0 <= k < |a| ensures e[k] != '_' {
      assert e[k] == a[k];
    }
  }

  /** The array fields are fixed by the text alone: a tube slot and a frequency without
      "_", opening the text around a "_" and ending where a "_" or the text ends, are the
      first two "_" pieces of it. */
  lemma ArrayFieldsAreThePieces(e: string, tube: string, freq: string)
    requires tube + "_" + freq <= e && '_' !in tube && '_' !in freq
    requires var n := |tube| + 1 + |freq|; n == |e| || e[n] == '_'
    ensures |Split(e, '_')| >= 2 && tube == Split(e, '_')[0] && freq == Split(e, '_')[1]
  {
    assert e[|tube|] == '_';
    ArrayPieces(e);
    var p0, p1 := Split(e, '_')[0], Split(e, '_')[1];
    assert e[..|p0|] == p0 && e[..|tube|] == tube;
    FieldUnique(e, tube, p0);
    var rest := e[|tube| + 1..];
    assert freq <= rest && p1 <= rest;
    FieldUnique(rest, freq, p1);
  }

  /** parse_info_file: the old SO layout takes the frequency from band without its first
      character and the tube slot from detset; the ACT layout takes both from the "_" pieces
      of array, and a text without "_" makes split(...)[1] raise IndexError. */
  function ParseInfoFile(f: InfoFile): (r: Result<Info>)
    ensures r.Ok? <==> HasCommonFields(f) && (OldFormat(f) || (f.arrayName.Some? && '_' in ExtractString(f.arrayName.value)))
    ensures r.Ok? && OldFormat(f) ==>
      var band := ExtractString(f.band.value);
      && (band == "" ==> r.value.frequency == "")
      && (band != "" ==> band == [band[0]] + r.value.frequency)
      && r.value.tubeSlot == ExtractString(f.detset.value)
    ensures r.Ok? && !OldFormat(f) ==>
      var e := ExtractString(f.arrayName.value);
      var n := |r.value.tubeSlot| + 1 + |r.value.frequency|;
      && r.value.tubeSlot + "_" + r.value.frequency <= e
      && '_' !in r.value.tubeSlot && '_' !in r.value.frequency
      && (n == |e| || e[n] == '_')
    ensures r.Ok? && !OldFormat(f) ==>
      var pieces := Split(ExtractString(f.arrayName.value), '_');
      |pieces| >= 2 && r.value.tubeSlot == pieces[0] && r.value.frequency == pieces[1]
    ensures r.Ok? ==>
      && r.value.observations == Observations(f.ids.value)
      && r.value.startTime == f.period.value[0] && r.value.stopTime == f.period.value[1]
      && r.value.ctime == f.t.value && r.value.box == f.box.value
    ensures !OldFormat(f) && f.arrayName.None? ==> r == Err(KeyError("array"))
    ensures !OldFormat(f) && f.arrayName.Some? && '_' !in ExtractString(f.arrayName.value) ==>
      r == Err(IndexError("list index out of range"))
  {
    if OldFormat(f) then
      CommonFields(Drop(ExtractString(f.band.value), 1), ExtractString(f.detset.value), f)
    else if f.arrayName.None? then Err(KeyError("array"))
    else
      var e := ExtractString(f.arrayName.value);
      var pieces := Split(e, '_');
      SplitProperties(e, '_');
      if |pieces| < 2 then Err(IndexError("list index out of range"))
      else
        ArrayPieces(e);
        CommonFields(pieces[1], pieces[0], f)
  }

  /** The array text of the ACT fixtures, b'pa4_f150', gives tube slot pa4 and frequency
      f150. */
  lemma ArrayExample()
    ensures Split(ExtractString("b'pa4_f150'"), '_') == ["pa4", "f150"]
  {
    var s := "b'pa4_f150'";
    assert s[..2] == "b'" && s[|s| - 1] == '\'';
    var inner := s[2..|s| - 1];
    assert ExtractString(s) == inner;
    var whole := "pa4" + ['_'] + "f150";
    assert |inner| == |whole| == 8;
    assert forall k | 0 <= k < 8 :: inner[k] == whole[k];
    assert inner == whole;
    SplitPrefix("pa4", '_', "f150");
    SplitNoSep("f150", '_');
  }

  // ---------------------------------------------------------------- parse_filenames

  /** The four files of a depth-1 map, in the order parse_filenames lists them. */
  const Kinds: seq<string> := ["map", "info", "ivar", "time"]

  function Suffix(kind: string): string
  {
    if kind == "map" then "_map.fits"
    else if kind == "info" then "_info.hdf"
    else if kind == "ivar" then "_ivar.fits"
    else "_time.fits"
  }

  /** Path(base + suffix) for one kind of file. */
  function FileOf(base: string, kind: string): Path
  {
    Parse(base + Suffix(kind))
  }

  /** A file that does not exist is skipped; one that exists must lie below the root. */
  predicate Resolvable(base: string, root: Path, onDisk: Path -> bool, kind: string)
  {
    onDisk(FileOf(base, kind)) ==> Under(FileOf(base, kind), root)
  }

  /** The dictionary comprehension over the given kinds, in order: each existing file is
      entered as its path relative to the root; the first relative_to failure propagates. */
  function CollectFiles(kinds: seq<string>, base: string, root: Path, onDisk: Path -> bool)
    : Result<map<string, string>>
  {
    if kinds == [] then Ok(map[])
    else
      var p := FileOf(base, kinds[0]);
      if onDisk(p) then
        var rel :- RelativeTo(p, root);
        var rest :- CollectFiles(kinds[1..], base, root, onDisk);
        Ok(rest[kinds[0] := Str(rel)])
      else CollectFiles(kinds[1..], base, root, onDisk)
  }

  /** Collecting succeeds iff every existing file lies below the root. */
  lemma {:induction false} CollectFilesOk(kinds: seq<string>, base: string, root: Path, onDisk: Path -> bool)
    ensures CollectFiles(kinds, base, root, onDisk).Ok? <==>
      forall i | 0 <= i < |kinds| :: Resolvable(base, root, onDisk, kinds[i])
  {
    if kinds != [] {
      var tail := kinds[1..];
      CollectFilesOk(tail, base, root, onDisk);
      assert forall i | 1 <= i < |kinds| :: kinds[i] == tail[i - 1];
    }
  }

  /** One step of a successful collection: the first kind's file, when it exists, is
      entered over what the remaining kinds collect. */
  lemma CollectFilesOkStep(kinds: seq<string>, base: string, root: Path, onDisk: Path -> bool)
    requires kinds != [] && CollectFiles(kinds, base, root, onDisk).Ok?
    ensures CollectFiles(kinds[1..], base, root, onDisk).Ok?
    ensures var p := FileOf(base, kinds[0]);
      var rest := CollectFiles(kinds[1..], base, root, onDisk).value;
      if onDisk(p) then
        Under(p, root) && CollectFiles(kinds, base, root, onDisk).value == rest[kinds[0] := Str(RelativeTo(p, root).value)]
      else CollectFiles(kinds, base, root, onDisk).value == rest
  {
  }

  /** The keys are the kinds whose file exists, each holding that file relative to the
      root. */
  lemma {:induction false} CollectFilesEntries(kinds: seq<string>, base: string, root: Path, onDisk: Path -> bool)
    requires CollectFiles(kinds, base, root, onDisk).Ok?
    ensures var m := CollectFiles(kinds, base, root, onDisk).value;
      && (forall k :: k in m <==> k in kinds && onDisk(FileOf(base, k)))
      && (forall k | k in m ::
            Under(FileOf(base, k), root) && m[k] == Str(RelativeTo(FileOf(base, k), root).value))
  {
    if kinds != [] {
      var tail := kinds[1..];
      CollectFilesOkStep(kinds, base, root, onDisk);
      CollectFilesEntries(tail, base, root, onDisk);
      assert kinds == [kinds[0]] + tail;
    }
  }

  /** Past a kind whose file is resolvable, a failure comes from the remaining kinds. */
  lemma CollectFilesSkip(kinds: seq<string>, base: string, root: Path, onDisk: Path -> bool)
    requires kinds != [] && Resolvable(base, root, onDisk, kinds[0])
    requires CollectFiles(kinds, base, root, onDisk).Err?
    ensures CollectFiles(kinds[1..], base, root, onDisk).Err?
    ensures CollectFiles(kinds[1..], base, root, onDisk).error == CollectFiles(kinds, base, root, onDisk).error
  {
  }

  /** A failure is the ValueError of the first kind whose file exists outside the root. */
  lemma {:induction false} CollectFilesError(kinds: seq<string>, base: string, root: Path, onDisk: Path -> bool)
    returns (i: nat)
    requires CollectFiles(kinds, base, root, onDisk).Err?
    ensures i < |kinds| && !Resolvable(base, root, onDisk, kinds[i])
    ensures CollectFiles(kinds, base, root, onDisk).error == RelativeTo(FileOf(base, kinds[i]), root).error
    ensures forall j | 0 <= j < i :: Resolvable(base, root, onDisk, kinds[j])
    decreases |kinds|, 1
  {
    if Resolvable(base, root, onDisk, kinds[0]) {
      i := CollectFilesErrorLater(kinds, base, root, onDisk);
    } else {
      i := 0;
    }
  }

  /** The failure past a first kind that is resolvable comes from the remaining kinds. */
  lemma {:induction false} CollectFilesErrorLater(kinds: seq<string>, base: string, root: Path, onDisk: Path -> bool)
    returns (i: nat)
    requires kinds != [] && Resolvable(base, root, onDisk, kinds[0])
    requires CollectFiles(kinds, base, root, onDisk).Err?
    ensures 0 < i < |kinds| && !Resolvable(base, root, onDisk, kinds[i])
    ensures CollectFiles(kinds, base, root, onDisk).error == RelativeTo(FileOf(base, kinds[i]), root).error
    ensures forall j | 0 <= j < i :: Resolvable(base, root, onDisk, kinds[j])
    decreases |kinds|, 0
  {
    var tail := kinds[1..];
    CollectFilesSkip(kinds, base, root, onDisk);
    var t := CollectFilesError(tail, base, root, onDisk);
    i := t + 1;
    assert kinds[i] == tail[t];
    assert FileOf(base, kinds[i]) == FileOf(base, tail[t]);
    PrefixShift(kinds, t, k => Resolvable(base, root, onDisk, k));
  }

  /** A property of the first element and of the tail's first t elements holds for the
      first t + 1 elements. */
  lemma PrefixShift(s: seq<string>, t: nat, P: string -> bool)
    requires t < |s| - 1 && P(s[0])
    requires forall j | 0 <= j < t :: P(s[1..][j])
    ensures forall j | 0 <= j < t + 1 :: P(s[j])
  {
    forall j | 0 < j < t + 1 ensures P(s[j]) {
      assert s[j] == s[1..][j - 1];
    }
  }

  /** parse_filenames: the map, info, ivar and time files of base that exist, each as its
      path text relative to the root. */
  function ParseFilenames(base: string, root: Path, onDisk: Path -> bool): (r: Result<map<string, string>>)
    ensures r.Ok? <==> forall kind | kind in Kinds :: Resolvable(base, root, onDisk, kind)
    ensures r.Ok? ==> forall k :: k in r.value <==> k in Kinds && onDisk(FileOf(base, k))
    ensures r.Err? ==> r.error.ValueError?
  {
    var r := CollectFiles(Kinds, base, root, onDisk);
    CollectFilesOk(Kinds, base, root, onDisk);
    if r.Ok? then
      CollectFilesEntries(Kinds, base, root, onDisk);
      r
    else
      assert r.error.ValueError? by {
        var i := CollectFilesError(Kinds, base, root, onDisk);
      }
      r
  }

  /** Joining an entry of parse_filenames back onto the root gives that file's path. */
  lemma FilenamesRoundTrip(base: string, root: Path, onDisk: Path -> bool, kind: string)
    requires Valid(root)
    requires ParseFilenames(base, root, onDisk).Ok? && kind in ParseFilenames(base, root, onDisk).value
    ensures Join(root, Parse(ParseFilenames(base, root, onDisk).value[kind])) == FileOf(base, kind)
  {
    CollectFilesEntries(Kinds, base, root, onDisk);
    var p := FileOf(base, kind);
    var rel := RelativeTo(p, root).value;
    StrParse(rel);
    JoinRelativeTo(p, root);
  }

  // ---------------------------------------------------------------- create_objects

  /** A TODDepthOneTable row as the ingest builds it (pwv stays unset). */
  datatype TodEntry = TodEntry(
    obsId: string,
    ctime: real,
    telescope: string,
    tubeSlot: string,
    frequency: string)

  /** A DepthOneMapTable row as the ingest builds it, with its TODs. */
  datatype IngestedMap = IngestedMap(
    mapName: string,
    mapPath: string,
    ivarPath: Option<string>,
    meanTimePath: Option<string>,
    tubeSlot: string,
    frequency: string,
    ctime: real,
    startTime: real,
    stopTime: real,
    tods: seq<TodEntry>)

  /** float(obs_id[4:14]): the ten characters after the "obs_" prefix, read as a number. */
  function TodCtime(obsId: string): (r: Result<real>)
    ensures r.Ok? <==> |obsId| > 4 && IsDigits(Slice(obsId, 4, 14))
    ensures r.Ok? ==> r.value == DecimalValue(Slice(obsId, 4, 14)) as real
    ensures r.Err? ==> r.error.ValueError?
  {
    var n :- ParseDecimal(Slice(obsId, 4, 14));
    Ok(n as real)
  }

  /** An observation id of the usual form yields its ten-digit timestamp. */
  lemma TodCtimeExample()
    ensures TodCtime("obs_1753486724_lati6_111") == Ok(1753486724 as real)
  {
    var obsId := "obs_1753486724_lati6_111";
    var digits := Slice(obsId, 4, 14);
    var want := "1753486724";
    assert |digits| == |want| == 10;
    assert forall k | 0 <= k < 10 :: digits[k] == obsId[4 + k] == want[k];
    assert digits == want;
    assert IsDigits(want);
    DecimalExampleTail();
  }

  lemma DecimalExampleHead()
    ensures DecimalValue("17534") == 17534
  {
    assert DecimalValue("1") == 1;
    assert "17"[..1] == "1";
    assert DecimalValue("17") == 17;
    assert "175"[..2] == "17";
    assert DecimalValue("175") == 175;
    assert "1753"[..3] == "175";
    assert DecimalValue("1753") == 1753;
    assert "17534"[..4] == "1753";
  }

  lemma DecimalExampleTail()
    ensures DecimalValue("1753486724") == 1753486724
  {
    DecimalExampleHead();
    assert "175348"[..5] == "17534";
    assert DecimalValue("175348") == 175348;
    assert "1753486"[..6] == "175348";
    assert DecimalValue("1753486") == 1753486;
    assert "17534867"[..7] == "1753486";
    assert DecimalValue("17534867") == 17534867;
    assert "175348672"[..8] == "17534867";
    assert DecimalValue("175348672") == 175348672;
    assert "1753486724"[..9] == "175348672";
  }

  /** The TOD list comprehension: one entry per observation, in order, each with its
      ctime, the telescope and the map's tube slot and frequency; the first observation
      whose ctime does not parse raises its ValueError. */
  function Tods(obs: seq<string>, telescope: string, info: Info): (r: Result<seq<TodEntry>>)
    ensures r.Ok? <==> forall i | 0 <= i < |obs| :: TodCtime(obs[i]).Ok?
    ensures r.Ok? ==> |r.value| == |obs| && forall i | 0 <= i < |obs| ::
      r.value[i] == TodEntry(obs[i], TodCtime(obs[i]).value, telescope, info.tubeSlot, info.frequency)
    ensures r.Err? ==> exists i | 0 <= i < |obs| ::
      TodCtime(obs[i]) == Err(r.error) && forall j | 0 <= j < i :: TodCtime(obs[j]).Ok?
  {
    if obs == [] then Ok([])
    else
      var ctime :- TodCtime(obs[0]);
      var rest :- Tods(obs[1..], telescope, info);
      assert forall i | 1 <= i < |obs| :: obs[i] == obs[1..][i - 1];
      Ok([TodEntry(obs[0], ctime, telescope, info.tubeSlot, info.frequency)] + rest)
  }

  /** The "_map.fits" suffix cannot overlap itself. */
  lemma MapSuffixBorderFree()
    ensures BorderFree("_map.fits")
  {
    var pat := "_map.fits";
    forall k | 0 < k < |pat| ensures pat[..k] != pat[|pat| - k..] {
      assert pat[..k][0] == '_';
      assert pat[|pat| - k..][0] == pat[|pat| - k] != '_';
    }
  }

  /** Removing "_map.fits" from a name that ends in it, and holds it nowhere else, gives
      the name without the suffix. */
  lemma StripMapSuffix(stem: string)
    requires !Contains(stem, "_map.fits")
    ensures ReplaceAll(stem + "_map.fits", "_map.fits", "") == stem
  {
    MapSuffixBorderFree();
    StripAppended(stem, "_map.fits");
  }

  /** dict.get. */
  function Get(m: map<string, string>, k: string): (r: Option<string>)
    ensures r.Some? <==> k in m
    ensures r.Some? ==> r.value == m[k]
  {
    if k in m then Some(m[k]) else None
  }

  /** create_objects: the files of base, the info file they name, then the map row. The
      root is the text the relative-to argument was given as. */
  function CreateObjects(base: string, root: string, telescope: string, onDisk: Path -> bool,
                         readInfo: Path -> InfoFile): Result<IngestedMap>
  {
    var rootPath := Parse(root);
    var filenames :- ParseFilenames(base, rootPath, onDisk);
    if "info" !in filenames then Err(KeyError("info"))
    else
      var info :- ParseInfoFile(readInfo(Join(rootPath, Parse(filenames["info"]))));
      MapRow(filenames, info, telescope)
  }

  /** The TODs of the info, then the DepthOneMapTable row; map_name is the map path with
      every "_map.fits" removed. */
  function MapRow(filenames: map<string, string>, info: Info, telescope: string): Result<IngestedMap>
  {
    var tods :- Tods(info.observations, telescope, info);
    if "map" !in filenames then Err(KeyError("map"))
    else
      Ok(IngestedMap(
        ReplaceAll(filenames["map"], "_map.fits", ""),
        filenames["map"],
        Get(filenames, "ivar"),
        Get(filenames, "time"),
        info.tubeSlot,
        info.frequency,
        info.ctime,
        info.startTime,
        info.stopTime,
        tods))
  }

  /** A map row holds the map, ivar and time entries of the file names, the info's
      fields, and one TOD per observation with its parsed ctime. */
  lemma MapRowOk(filenames: map<string, string>, info: Info, telescope: string)
    requires MapRow(filenames, info, telescope).Ok?
    ensures var m := MapRow(filenames, info, telescope).value;
      && "map" in filenames && m.mapPath == filenames["map"]
      && (m.ivarPath.Some? <==> "ivar" in filenames) && (m.ivarPath.Some? ==> m.ivarPath.value == filenames["ivar"])
      && (m.meanTimePath.Some? <==> "time" in filenames) && (m.meanTimePath.Some? ==> m.meanTimePath.value == filenames["time"])
      && m.tubeSlot == info.tubeSlot && m.frequency == info.frequency
      && m.ctime == info.ctime && m.startTime == info.startTime && m.stopTime == info.stopTime
      && |m.tods| == |info.observations|
      && forall i | 0 <= i < |m.tods| :: m.tods[i].obsId == info.observations[i]
           && TodCtime(m.tods[i].obsId) == Ok(m.tods[i].ctime) && m.tods[i].telescope == telescope
  {
  }

  /** A created row comes from base's own info file, read at the path base gives it. */
  lemma CreateObjectsReadsOwnInfo(base: string, root: string, telescope: string, onDisk: Path -> bool,
                                  readInfo: Path -> InfoFile)
    requires CreateObjects(base, root, telescope, onDisk, readInfo).Ok?
    ensures var filenames := ParseFilenames(base, Parse(root), onDisk);
      var info := ParseInfoFile(readInfo(FileOf(base, "info")));
      && filenames.Ok? && onDisk(FileOf(base, "info")) && info.Ok?
      && CreateObjects(base, root, telescope, onDisk, readInfo) == MapRow(filenames.value, info.value, telescope)
  {
    var rootPath := Parse(root);
    FilenamesRoundTrip(base, rootPath, onDisk, "info");
  }

  /** A created map row: its map file exists, the ivar and time paths are set iff those
      files exist, every stored path joins back onto the root as the file it names, and the
      row carries the fields and TODs of base's own info file. */
  lemma CreateObjectsOk(base: string, root: string, telescope: string, onDisk: Path -> bool,
                        readInfo: Path -> InfoFile)
    requires CreateObjects(base, root, telescope, onDisk, readInfo).Ok?
    ensures var m := CreateObjects(base, root, telescope, onDisk, readInfo).value;
      var info := ParseInfoFile(readInfo(FileOf(base, "info")));
      && info.Ok?
      && onDisk(FileOf(base, "map"))
      && Join(Parse(root), Parse(m.mapPath)) == FileOf(base, "map")
      && (m.ivarPath.Some? <==> onDisk(FileOf(base, "ivar")))
      && (m.ivarPath.Some? ==> Join(Parse(root), Parse(m.ivarPath.value)) == FileOf(base, "ivar"))
      && (m.meanTimePath.Some? <==> onDisk(FileOf(base, "time")))
      && (m.meanTimePath.Some? ==> Join(Parse(root), Parse(m.meanTimePath.value)) == FileOf(base, "time"))
      && m.tubeSlot == info.value.tubeSlot && m.frequency == info.value.frequency
      && m.ctime == info.value.ctime && |m.tods| == |info.value.observations|
  {
    var rootPath := Parse(root);
    CreateObjectsReadsOwnInfo(base, root, telescope, onDisk, readInfo);
    var filenames := ParseFilenames(base, rootPath, onDisk).value;
    var info := ParseInfoFile(readInfo(FileOf(base, "info"))).value;
    MapRowOk(filenames, info, telescope);
    FilenamesRoundTrip(base, rootPath, onDisk, "map");
    if "ivar" in filenames {
      FilenamesRoundTrip(base, rootPath, onDisk, "ivar");
    }
    if "time" in filenames {
      FilenamesRoundTrip(base, rootPath, onDisk, "time");
    }
  }

  /** With every file below the root, a missing info file is reported as KeyError("info"),
      before the info file or the TODs are looked at. */
  lemma CreateObjectsWithoutInfo(base: string, root: string, telescope: string, onDisk: Path -> bool,
                                 readInfo: Path -> InfoFile)
    requires forall kind | kind in Kinds :: Resolvable(base, Parse(root), onDisk, kind)
    requires !onDisk(FileOf(base, "info"))
    ensures CreateObjects(base, root, telescope, onDisk, readInfo) == Err(KeyError("info"))
  {
  }

  // ---------------------------------------------------------------- glob

  /** The base of a matched map file: its text with every "_map.fits" removed. */
  function BaseOf(mapFile: Path): string
  {
    ReplaceAll(Str(mapFile), "_map.fits", "")
  }

  /** A matched map file whose text holds "_map.fits" only as its suffix is found again as
      the map file of its base. */
  lemma BaseOfMapFile(mapFile: Path, stem: string)
    requires Valid(mapFile)
    requires Str(mapFile) == stem + "_map.fits" && !Contains(stem, "_map.fits")
    ensures BaseOf(mapFile) == stem
    ensures FileOf(BaseOf(mapFile), "map") == mapFile
  {
    StripMapSuffix(stem);
    StrParse(mapFile);
  }

  /** The ingest of one matched map file: create_objects for its base. */
  function Ingestor(root: string, telescope: string, onDisk: Path -> bool, readInfo: Path -> InfoFile)
    : Path -> Result<IngestedMap>
  {
    (mapFile: Path) => CreateObjects(BaseOf(mapFile), root, telescope, onDisk, readInfo)
  }

  /** Ingesting each matched file in match order, stopping at the first failure. */
  function GlobWith(matches: seq<Path>, ingest: Path -> Result<IngestedMap>): Result<seq<IngestedMap>>
  {
    if matches == [] then Ok([])
    else
      var done :- GlobWith(matches[..|matches| - 1], ingest);
      var depthOneMap :- ingest(matches[|matches| - 1]);
      Ok(done + [depthOneMap])
  }

  /** The ingest succeeds iff every matched file does, and then holds their rows in match
      order; otherwise it fails with the error of the first file that fails. */
  lemma {:induction false} GlobWithSpec(matches: seq<Path>, ingest: Path -> Result<IngestedMap>)
    ensures var r := GlobWith(matches, ingest);
      && (r.Ok? <==> forall i | 0 <= i < |matches| :: ingest(matches[i]).Ok?)
      && (r.Ok? ==> |r.value| == |matches| && forall i | 0 <= i < |matches| :: ingest(matches[i]) == Ok(r.value[i]))
      && (r.Err? ==> exists i | 0 <= i < |matches| ::
            ingest(matches[i]) == Err(r.error) && forall j | 0 <= j < i :: ingest(matches[j]).Ok?)
  {
    if matches != [] {
      var n := |matches| - 1;
      var pre := matches[..n];
      GlobWithSpec(pre, ingest);
      assert forall i | 0 <= i < n :: matches[i] == pre[i];
    }
  }

  /** Once a matched file fails, the ingest fails with its error whatever follows. */
  lemma {:induction false} GlobStopsAt(matches: seq<Path>, i: nat, ingest: Path -> Result<IngestedMap>)
    requires i < |matches| && GlobWith(matches[..i], ingest).Ok? && ingest(matches[i]).Err?
    ensures GlobWith(matches, ingest) == Err(ingest(matches[i]).error)
    decreases |matches|
  {
    var n := |matches| - 1;
    if i < n {
      assert matches[..n][..i] == matches[..i] && matches[..n][i] == matches[i];
      GlobStopsAt(matches[..n], i, ingest);
    } else {
      assert matches[..n] == matches[..i];
    }
  }

  /** glob: create_objects for each matched map file, appending each row; the first
      failure ends the ingest with its error. */
  method Glob(matches: seq<Path>, root: string, telescope: string, onDisk: Path -> bool,
              readInfo: Path -> InfoFile)
    returns (r: Result<seq<IngestedMap>>)
    ensures r == GlobWith(matches, Ingestor(root, telescope, onDisk, readInfo))
  {
    ghost var ingest := Ingestor(root, telescope, onDisk, readInfo);
    var maps: seq<IngestedMap> := [];
    for i := 0 to |matches|
      invariant GlobWith(matches[..i], ingest) == Ok(maps)
    {
      var base := BaseOf(matches[i]);
      var depthOneMap := CreateObjects(base, root, telescope, onDisk, readInfo);
      assert depthOneMap == ingest(matches[i]);
      assert matches[..i + 1][..i] == matches[..i];
      if depthOneMap.Err? {
        GlobStopsAt(matches, i, ingest);
        return Err(depthOneMap.error);
      }
      maps := maps + [depthOneMap.value];
    }
    assert matches[..|matches|] == matches;
    return Ok(maps);
  }
}
