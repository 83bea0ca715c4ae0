/**
 * GetHours: shows a time of day, given in one country, as the local time of
 * every country of the timezone table. The collaborators it calls but that
 * are not part of this model are parameters (see Env).
 */
module Hours {
  import opened Wrappers
  import opened Text
  import opened Numbers
  import opened Order

  /** An entry of the timezone table: an IANA zone identifier and a flag glyph. */
  datatype ZoneInfo = ZoneInfo(timezone: string, flag: string)

  /**
   * What GetHours reads but does not compute itself:
   * - `zones`: the process-wide timezone table, keyed by canonical country name;
   * - `wordCase`: the normalisation of a country name to its canonical form;
   * - `loads`: whether the runtime's timezone database resolves a zone identifier;
   * - `clock(h, m, from, to)`: today's UTC date at h:m in zone `from`, seen in
   *   zone `to` and rendered as "HH:MM" (the system clock, the date arithmetic
   *   that carries out-of-range hours and minutes over, and the formatting).
   */
  datatype Env = Env(
    zones: map<string, ZoneInfo>,
    wordCase: string -> string,
    loads: string -> bool,
    clock: (int, int, string, string) -> string)

  /** The errors GetHours returns, in the order it checks for them. */
  datatype HoursError = InvalidTimeFormat | InvalidHour | InvalidMinute | UnknownCountry | TimezoneLoad

  /** The text of each error. */
  function Message(e: HoursError): string
  {
    match e
    case InvalidTimeFormat => "invalid time format. Please use HH:MM format"
    case InvalidHour => "invalid hour format"
    case InvalidMinute => "invalid minute format"
    case UnknownCountry => "unknown country"
    case TimezoneLoad => "unable to load timezone"
  }

  /** Each error has its own text, so a caller can tell them apart. */
  lemma MessagesDistinct(e1: HoursError, e2: HoursError)
    requires e1 != e2
    ensures Message(e1) != Message(e2)
  {
    assert |Message(InvalidTimeFormat)| != |Message(InvalidHour)|;
    assert Message(InvalidHour)[8] != Message(InvalidMinute)[8];
  }

  /** A request that passed validation: the parsed hour and minute and the table key. */
  datatype Request = Request(hour: int, minute: int, country: string)

  /** The checks GetHours makes before it writes anything, first failure wins. */
  function Validate(time: string, country: string, env: Env): (r: Result<Request, HoursError>)
    ensures r.Ok? ==> |Split(time)| == 2
    ensures r.Ok? ==> Atoi(Split(time)[0]) == Some(r.value.hour) && Atoi(Split(time)[1]) == Some(r.value.minute)
    ensures r.Ok? ==> r.value.country == env.wordCase(country) && r.value.country in env.zones
    ensures r.Ok? ==> env.loads(env.zones[r.value.country].timezone)
  {
    var args := Split(time);
    if |args| != 2 then Err(InvalidTimeFormat)
    else if Atoi(args[0]).None? then Err(InvalidHour)
    else if Atoi(args[1]).None? then Err(InvalidMinute)
    else
      var key := env.wordCase(country);
      if key !in env.zones then Err(UnknownCountry)
      else if !env.loads(env.zones[key].timezone) then Err(TimezoneLoad)
      else Ok(Request(Atoi(args[0]).value, Atoi(args[1]).value, key))
  }

  /** One output line: a clock glyph, the flag, the country in bold, the time in code. */
  datatype Line = Line(flag: string, country: string, time: string)

  /** The bytes of one line; every line ends in a newline. */
  function Format(l: Line): (s: string)
    ensures |s| > 0 && s[|s| - 1] == '\n'
  {
    "\U{1F552} " + l.flag + " **" + l.country + "**: `" + l.time + "` hrs\n"
  }

  /** The buffer after writing `lines` one after the other. */
  function Render(lines: seq<Line>): (text: string)
    ensures lines != [] ==> text != [] && text[|text| - 1] == '\n'
    ensures lines == [] ==> text == ""
  {
    if lines == [] then ""
    else Render(lines[..|lines| - 1]) + Format(lines[|lines| - 1])
  }

  /** The line of table key `key` for a validated request: its local time of the requested instant. */
  function LineFor(key: string, req: Request, env: Env): (l: Line)
    requires key in env.zones && req.country in env.zones
    ensures l.country == key && l.flag == env.zones[key].flag
  {
    Line(env.zones[key].flag, key,
         env.clock(req.hour, req.minute, env.zones[req.country].timezone, env.zones[key].timezone))
  }

  /** A key other than the reference country whose timezone loads gets a line. */
  predicate Shown(key: string, req: Request, env: Env)
    requires key in env.zones
  {
    key != req.country && env.loads(env.zones[key].timezone)
  }

  /** The keys of `keys`, in their order, that get a line. */
  function Selected(keys: seq<string>, req: Request, env: Env): (r: seq<string>)
    requires forall k :: k in keys ==> k in env.zones
    ensures |r| <= |keys|
    ensures forall k :: k in r <==> k in keys && Shown(k, req, env)
  {
    if keys == [] then []
    else
      var init := Selected(keys[..|keys| - 1], req, env);
      var last := keys[|keys| - 1];
      assert forall k :: k in keys <==> k in keys[..|keys| - 1] || k == last by {
        assert keys == keys[..|keys| - 1] + [last];
      }
      if Shown(last, req, env) then init + [last] else init
  }

  /** The lines of `keys`, in their order. */
  function LinesFor(keys: seq<string>, req: Request, env: Env): (lines: seq<Line>)
    requires forall k :: k in keys ==> k in env.zones
    requires req.country in env.zones
    ensures |lines| == |keys|
    ensures forall i :: 0 <= i < |keys| ==> lines[i] == LineFor(keys[i], req, env)
  {
    if keys == [] then []
    else LinesFor(keys[..|keys| - 1], req, env) + [LineFor(keys[|keys| - 1], req, env)]
  }

  /**
   * The lines of a successful GetHours: the reference country first, then
   * the other keys of the table in ascending order, without those whose
   * timezone does not load.
   */
  ghost function HoursLines(req: Request, env: Env): seq<Line>
    requires req.country in env.zones
  {
    LinesFor([req.country] + Selected(SortedKeys(env.zones.Keys), req, env), req, env)
  }

  /** What GetHours returns: the text and the error (None for Go's nil). */
  ghost function Hours(time: string, country: string, env: Env): (r: (string, Option<HoursError>))
    ensures r.1 == None <==> Validate(time, country, env).Ok?
    ensures r.1 != None ==> r.0 == ""
  {
    match Validate(time, country, env)
    case Err(e) => ("", Some(e))
    case Ok(req) => (Render(HoursLines(req, env)), None)
  }

  /** Gather the keys of the table, in whatever order the map yields them. */
  method CollectKeys(zones: map<string, ZoneInfo>) returns (tzones: array<string>)
    ensures fresh(tzones)
    ensures Distinct(tzones[..])
    ensures forall k :: k in tzones[..] <==> k in zones
  {
    tzones := new string[|zones.Keys|];
    var remaining := zones.Keys;
    var n := 0;
    while remaining != {}
      invariant 0 <= n <= tzones.Length
      invariant n + |remaining| == tzones.Length
      invariant remaining <= zones.Keys
      invariant forall k :: k in zones <==> k in remaining || k in tzones[..n]
      invariant forall k :: k in tzones[..n] ==> k !in remaining
      invariant Distinct(tzones[..n])
      decreases remaining
    {
      var key :| key in remaining;
      tzones[n] := key;
      n := n + 1;
      remaining := remaining - {key};
      assert tzones[..n] == tzones[..n - 1] + [key];
    }
    assert tzones[..n] == tzones[..];
  }

  /**
   * Write the reference country's line, then walk the sorted
   * keys, skipping the reference country and every key whose timezone does
   * not load, and write a line for each other key.
   */
  method WriteLines(tzones: array<string>, req: Request, env: Env) returns (text: string)
    requires req.country in env.zones
    requires forall k :: k in tzones[..] ==> k in env.zones
    ensures text == Written(tzones[..], req, env)
  {
    var countryCase := req.country;
    var info := env.zones[countryCase];
    text := Format(Line(info.flag, countryCase, env.clock(req.hour, req.minute, info.timezone, info.timezone)));
    assert text == Written(tzones[..0], req, env) by {
      assert tzones[..0] == [];
      assert LinesFor([countryCase], req, env) == [LineFor(countryCase, req, env)];
    }
    for i := 0 to tzones.Length
      invariant text == Written(tzones[..i], req, env)
    {
      var tz := tzones[i];
      WrittenStep(tzones[..], i, req, env);
      assert tzones[..][..i] == tzones[..i] && tzones[..][..i + 1] == tzones[..i + 1];
      if tz == countryCase {
        continue;
      }
      var zone := env.zones[tz];
      if !env.loads(zone.timezone) {
        continue;
      }
      text := text + Format(Line(zone.flag, tz, env.clock(req.hour, req.minute, info.timezone, zone.timezone)));
    }
    assert tzones[..tzones.Length] == tzones[..];
  }

  /** The buffer once the keys `walked` have been visited. */
  function Written(walked: seq<string>, req: Request, env: Env): string
    requires req.country in env.zones
    requires forall k :: k in walked ==> k in env.zones
  {
    Render(LinesFor([req.country] + Selected(walked, req, env), req, env))
  }

  /** Extending the walked prefix by one key adds that key iff it is shown. */
  lemma SelectedStep(keys: seq<string>, i: nat, req: Request, env: Env)
    requires i < |keys| && forall k :: k in keys ==> k in env.zones
    ensures Shown(keys[i], req, env) ==> Selected(keys[..i + 1], req, env) == Selected(keys[..i], req, env) + [keys[i]]
    ensures !Shown(keys[i], req, env) ==> Selected(keys[..i + 1], req, env) == Selected(keys[..i], req, env)
  {
    assert keys[..i + 1][..i] == keys[..i];
  }

  /** Visiting one more key writes its line if it is shown and nothing otherwise. */
  lemma WrittenStep(keys: seq<string>, i: nat, req: Request, env: Env)
    requires req.country in env.zones
    requires i < |keys| && forall k :: k in keys ==> k in env.zones
    ensures Written(keys[..i + 1], req, env)
         == Written(keys[..i], req, env) + (if Shown(keys[i], req, env) then Format(LineFor(keys[i], req, env)) else "")
  {
    assert keys[..i + 1][..i] == keys[..i];
    var done := [req.country] + Selected(keys[..i], req, env);
    if Shown(keys[i], req, env) {
      assert [req.country] + Selected(keys[..i + 1], req, env) == done + [keys[i]];
      AppendLine(done, keys[i], req, env);
    } else {
      assert Written(keys[..i], req, env) + "" == Written(keys[..i], req, env);
    }
  }

  /** Writing one more key's line extends the rendered text by that line. */
  lemma AppendLine(done: seq<string>, key: string, req: Request, env: Env)
    requires req.country in env.zones && key in env.zones
    requires forall k :: k in done ==> k in env.zones
    ensures Render(LinesFor(done + [key], req, env))
         == Render(LinesFor(done, req, env)) + Format(LineFor(key, req, env))
  {
    assert (done + [key])[..|done|] == done;
    var before := LinesFor(done, req, env);
    assert (before + [LineFor(key, req, env)])[..|before|] == before;
  }

  /** GetHours(hour, country) of the bot's service layer. */
  method GetHours(time: string, country: string, env: Env) returns (text: string, err: Option<HoursError>)
    ensures (text, err) == Hours(time, country, env)
  {
    var args := Split(time);
    if |args| != 2 {
      return "", Some(InvalidTimeFormat);
    }
    var h := Atoi(args[0]);
    if h.None? {
      return "", Some(InvalidHour);
    }
    var m := Atoi(args[1]);
    if m.None? {
      return "", Some(InvalidMinute);
    }
    var countryCase := env.wordCase(country);
    if countryCase !in env.zones {
      return "", Some(UnknownCountry);
    }
    var info := env.zones[countryCase];
    if !env.loads(info.timezone) {
      return "", Some(TimezoneLoad);
    }
    var req := Request(h.value, m.value, countryCase);
    assert Validate(time, country, env) == Ok(req);

    var tzones := CollectKeys(env.zones);
    ghost var gathered := tzones[..];
    SortStrings(tzones);
    SortedPermutationIsSortedKeys(tzones[..], gathered, env.zones.Keys);
    text := WriteLines(tzones, req, env);
    err := None;
  }

  // Properties of the validation.

  /** A time without exactly one colon is refused before anything else is looked at. */
  lemma MalformedTimeFails(time: string, country: string, env: Env)
    requires Count(time, Colon) != 1
    ensures Hours(time, country, env) == ("", Some(InvalidTimeFormat))
  {
    SplitCount(time);
  }

  /** "10" and "1:2:3" are both refused as malformed. */
  lemma MalformedTimeExamples(country: string, env: Env)
    ensures Hours("10", country, env) == ("", Some(InvalidTimeFormat))
    ensures Hours("1:2:3", country, env) == ("", Some(InvalidTimeFormat))
  {
    MalformedTimeFails("10", country, env);
    assert Count("1:2:3", Colon) == 2 by {
      assert "1:2:3"[1..] == ":2:3" && ":2:3"[1..] == "2:3";
      assert "2:3"[1..] == ":3" && ":3"[1..] == "3" && "3"[1..] == "";
    }
    MalformedTimeFails("1:2:3", country, env);
  }

  /**
   * Each error is returned exactly when every earlier check passed and its
   * own check failed: part count, hour, minute, country, timezone.
   */
  lemma ValidationOrder(time: string, country: string, env: Env)
    ensures Validate(time, country, env) == Err(InvalidTimeFormat) <==> |Split(time)| != 2
    ensures Validate(time, country, env) == Err(InvalidHour)
        <==> |Split(time)| == 2 && Atoi(Split(time)[0]).None?
    ensures Validate(time, country, env) == Err(InvalidMinute)
        <==> |Split(time)| == 2 && Atoi(Split(time)[0]).Some? && Atoi(Split(time)[1]).None?
    ensures Validate(time, country, env) == Err(UnknownCountry)
        <==> |Split(time)| == 2 && Atoi(Split(time)[0]).Some? && Atoi(Split(time)[1]).Some?
             && env.wordCase(country) !in env.zones
    ensures Validate(time, country, env) == Err(TimezoneLoad)
        <==> |Split(time)| == 2 && Atoi(Split(time)[0]).Some? && Atoi(Split(time)[1]).Some?
             && env.wordCase(country) in env.zones && !env.loads(env.zones[env.wordCase(country)].timezone)
  {
  }

  /**
   * A time that does not parse is reported whatever the country and
   * whatever the table: the later checks are never reached.
   */
  lemma TimeErrorsComeFirst(time: string, c1: string, c2: string, env1: Env, env2: Env)
    requires !(|Split(time)| == 2 && Atoi(Split(time)[0]).Some? && Atoi(Split(time)[1]).Some?)
    ensures Hours(time, c1, env1).1.Some?
    ensures Hours(time, c1, env1).1.value != UnknownCountry && Hours(time, c1, env1).1.value != TimezoneLoad
    ensures Hours(time, c2, env2) == Hours(time, c1, env1)
  {
  }

  /**
   * Hour and minute are not range-checked: any two integers that Atoi can
   * represent, written as "h:m", pass the time checks with their values.
   */
  lemma NoRangeCheck(h: int, m: int, country: string, env: Env)
    requires MinInt <= h <= MaxInt && MinInt <= m <= MaxInt
    ensures Validate(Itoa(h) + [Colon] + Itoa(m), country, env) !in
              {Err(InvalidTimeFormat), Err(InvalidHour), Err(InvalidMinute)}
    ensures Validate(Itoa(h) + [Colon] + Itoa(m), country, env).Ok? ==>
              Validate(Itoa(h) + [Colon] + Itoa(m), country, env).value.hour == h &&
              Validate(Itoa(h) + [Colon] + Itoa(m), country, env).value.minute == m
  {
    ItoaHasNoColon(h);
    ItoaHasNoColon(m);
    TwoPieces(Itoa(h), Itoa(m));
    AtoiItoa(h);
    AtoiItoa(m);
  }

  /**
   * Hour and minute are not range-checked: a time with two pieces that Atoi
   * accepts passes the time checks with the parsed values, whatever they are.
   */
  lemma ParsedTimeAccepted(time: string, country: string, env: Env)
    requires |Split(time)| == 2 && Atoi(Split(time)[0]).Some? && Atoi(Split(time)[1]).Some?
    ensures Validate(time, country, env) !in {Err(InvalidTimeFormat), Err(InvalidHour), Err(InvalidMinute)}
    ensures Validate(time, country, env).Ok? ==>
              Validate(time, country, env).value.hour == Atoi(Split(time)[0]).value &&
              Validate(time, country, env).value.minute == Atoi(Split(time)[1]).value
  {
  }

  /** "25:99" splits into "25" and "99". */
  lemma OutOfRangeTimeSplits()
    ensures Split("25:99") == ["25", "99"]
  {
    var hh, mm := "25", "99";
    assert "25:99" == hh + [Colon] + mm;
    TwoPieces(hh, mm);
  }

  /** "25:99" is a valid time: only the country checks can still refuse it. */
  lemma OutOfRangeTimeAccepted(time: string, country: string, env: Env)
    requires time == "25:99"
    ensures Validate(time, country, env) !in {Err(InvalidTimeFormat), Err(InvalidHour), Err(InvalidMinute)}
    ensures Validate(time, country, env).Ok? ==>
              Validate(time, country, env).value.hour == 25 && Validate(time, country, env).value.minute == 99
  {
    OutOfRangeTimeSplits();
    AtoiAcceptsOutOfRange();
    ParsedTimeAccepted(time, country, env);
  }

  /** The country is only ever looked at through its canonical form. */
  lemma SameWordCaseSameResult(time: string, c1: string, c2: string, env: Env)
    requires env.wordCase(c1) == env.wordCase(c2)
    ensures Hours(time, c1, env) == Hours(time, c2, env)
  {
  }

  // Properties of the output.

  /** The keys of the table that get a line after the reference line. */
  ghost function ShownKeys(req: Request, env: Env): set<string>
    requires req.country in env.zones
  {
    set k | k in env.zones && Shown(k, req, env)
  }

  /** Dropping keys keeps a strictly ascending sequence strictly ascending. */
  lemma {:induction false} SelectedAscending(keys: seq<string>, req: Request, env: Env)
    requires forall k :: k in keys ==> k in env.zones
    requires StrictlyAscending(keys)
    ensures StrictlyAscending(Selected(keys, req, env))
  {
    if keys != [] {
      var init := keys[..|keys| - 1];
      var last := keys[|keys| - 1];
      SelectedAscending(init, req, env);
      var sel := Selected(init, req, env);
      if Shown(last, req, env) {
        forall p | 0 <= p < |sel|
          ensures LexLess(sel[p], last)
        {
          assert sel[p] in init;
          var j :| 0 <= j < |init| && init[j] == sel[p];
        }
      }
    }
  }

  /** The keys among `keys` that get a line. */
  ghost function ShownAmong(keys: seq<string>, req: Request, env: Env): set<string>
    requires forall k :: k in keys ==> k in env.zones
  {
    set k | k in keys && Shown(k, req, env)
  }

  /** The shown keys among `keys` are those of its prefix, plus its last key if shown. */
  lemma ShownAmongStep(keys: seq<string>, req: Request, env: Env)
    requires keys != [] && forall k :: k in keys ==> k in env.zones
    ensures ShownAmong(keys, req, env)
         == ShownAmong(keys[..|keys| - 1], req, env)
            + (if Shown(keys[|keys| - 1], req, env) then {keys[|keys| - 1]} else {})
  {
    assert keys == keys[..|keys| - 1] + [keys[|keys| - 1]];
  }

  /** The last key of a sequence without repeats does not occur before it. */
  lemma DistinctLast(keys: seq<string>)
    requires keys != [] && Distinct(keys)
    ensures Distinct(keys[..|keys| - 1]) && keys[|keys| - 1] !in keys[..|keys| - 1]
  {
  }

  /** Of distinct keys, exactly as many get a line as there are shown keys among them. */
  lemma {:induction false} SelectedCount(keys: seq<string>, req: Request, env: Env)
    requires forall k :: k in keys ==> k in env.zones
    requires Distinct(keys)
    ensures |Selected(keys, req, env)| == |ShownAmong(keys, req, env)|
  {
    if keys != [] {
      var init := keys[..|keys| - 1];
      DistinctLast(keys);
      SelectedCount(init, req, env);
      ShownAmongStep(keys, req, env);
    }
  }

  /** The first line is the reference country's, with its own flag and its own local time. */
  lemma ReferenceLineFirst(req: Request, env: Env)
    requires req.country in env.zones
    ensures HoursLines(req, env) != []
    ensures HoursLines(req, env)[0] == Line(env.zones[req.country].flag, req.country,
              env.clock(req.hour, req.minute, env.zones[req.country].timezone, env.zones[req.country].timezone))
  {
  }

  /** After the reference line come the selected sorted keys, one line each, in order. */
  lemma LinesAfterReference(req: Request, env: Env)
    requires req.country in env.zones
    ensures |HoursLines(req, env)| == 1 + |Selected(SortedKeys(env.zones.Keys), req, env)|
    ensures forall i :: 1 <= i < |HoursLines(req, env)| ==>
              HoursLines(req, env)[i].country == Selected(SortedKeys(env.zones.Keys), req, env)[i - 1]
  {
    LinesAfterFirst(req.country, Selected(SortedKeys(env.zones.Keys), req, env), req, env);
  }

  /** The lines of `[first] + rest`: after the first line, one line per key of `rest`. */
  lemma LinesAfterFirst(first: string, rest: seq<string>, req: Request, env: Env)
    requires req.country in env.zones && first in env.zones
    requires forall k :: k in rest ==> k in env.zones
    ensures |LinesFor([first] + rest, req, env)| == 1 + |rest|
    ensures forall i :: 1 <= i <= |rest| ==> LinesFor([first] + rest, req, env)[i].country == rest[i - 1]
  {
    var walked := [first] + rest;
    forall i | 1 <= i <= |rest|
      ensures LinesFor(walked, req, env)[i].country == rest[i - 1]
    {
      assert walked[i] == rest[i - 1];
    }
  }

  /**
   * After the first line come shown keys only, in strictly ascending order,
   * so none twice and never the reference country.
   */
  lemma OtherLinesAscending(req: Request, env: Env)
    requires req.country in env.zones
    ensures forall i :: 1 <= i < |HoursLines(req, env)| ==>
              HoursLines(req, env)[i].country in env.zones && Shown(HoursLines(req, env)[i].country, req, env)
    ensures forall i, j :: 1 <= i < j < |HoursLines(req, env)| ==>
              LexLess(HoursLines(req, env)[i].country, HoursLines(req, env)[j].country)
  {
    var keys := SortedKeys(env.zones.Keys);
    SelectedAscending(keys, req, env);
    LinesAfterReference(req, env);
  }

  /** A key has a line after the first exactly when it is shown. */
  lemma OtherLinesComplete(req: Request, env: Env, key: string)
    requires req.country in env.zones
    ensures (key in env.zones && Shown(key, req, env))
        <==> exists i :: 1 <= i < |HoursLines(req, env)| && HoursLines(req, env)[i].country == key
  {
    OtherLinesAscending(req, env);
    if key in env.zones && Shown(key, req, env) {
      var sel := Selected(SortedKeys(env.zones.Keys), req, env);
      assert key in sel;
      var j :| 0 <= j < |sel| && sel[j] == key;
      LinesAfterReference(req, env);
      assert HoursLines(req, env)[j + 1].country == key;
    }
  }

  /** One line for the reference country and one for each shown key. */
  lemma LineCount(req: Request, env: Env)
    requires req.country in env.zones
    ensures |HoursLines(req, env)| == 1 + |ShownKeys(req, env)|
  {
    var keys := SortedKeys(env.zones.Keys);
    assert Distinct(keys);
    SelectedCount(keys, req, env);
    assert ShownAmong(keys, req, env) == ShownKeys(req, env);
  }

  /** The countries of `lines`, in order. */
  function Countries(lines: seq<Line>): (cs: seq<string>)
    ensures |cs| == |lines| && forall i :: 0 <= i < |lines| ==> cs[i] == lines[i].country
  {
    if lines == [] then [] else [lines[0].country] + Countries(lines[1..])
  }

  /** The lines of a successful GetHours name the reference country, then the selected sorted keys. */
  lemma CountriesOfHoursLines(req: Request, env: Env)
    requires req.country in env.zones
    ensures Countries(HoursLines(req, env)) == [req.country] + Selected(SortedKeys(env.zones.Keys), req, env)
  {
    CountriesOfLines([req.country] + Selected(SortedKeys(env.zones.Keys), req, env), req, env);
  }

  /** Three keys in ascending order are sorted as they stand. */
  lemma ThreeSorted(a: string, b: string, c: string)
    requires LexLess(a, b) && LexLess(b, c)
    ensures a != c && SortedKeys({a, b, c}) == [a, b, c]
  {
    LexTransitive(a, b, c);
    if a == c {
      LexAntisymmetric(a, b);
    }
    var sorted := [a, b, c];
    assert StrictlyAscending(sorted);
    AscendingUnique(sorted, SortedKeys({a, b, c}));
  }

  /** A table with exactly three ascending keys: its sorted keys are those three. */
  lemma ThreeTable(a: string, b: string, c: string, env: Env)
    requires LexLess(a, b) && LexLess(b, c)
    requires env.zones.Keys == {a, b, c}
    ensures a in env.zones && b in env.zones && c in env.zones
    ensures a != c && b != c
    ensures SortedKeys(env.zones.Keys) == [a, b, c]
  {
    ThreeSorted(a, b, c);
  }

  /** The lines of `keys` name exactly `keys`, in order. */
  lemma CountriesOfLines(keys: seq<string>, req: Request, env: Env)
    requires req.country in env.zones && forall k :: k in keys ==> k in env.zones
    ensures Countries(LinesFor(keys, req, env)) == keys
  {
  }

  /** `[key]` when the zone of `key` loads, else nothing. */
  function Kept(key: string, env: Env): (r: seq<string>)
    requires key in env.zones
    ensures r == [key] <==> env.loads(env.zones[key].timezone)
    ensures r == [] <==> !env.loads(env.zones[key].timezone)
  {
    if env.loads(env.zones[key].timezone) then [key] else []
  }

  /** Which of three keys get a line when the last is the reference: those whose zone loads. */
  lemma ThreeSelected(a: string, b: string, c: string, env: Env, req: Request)
    requires a in env.zones && b in env.zones && c in env.zones
    requires a != c && b != c && req.country == c
    ensures Selected([a, b, c], req, env) == Kept(a, env) + Kept(b, env)
  {
    var sorted := [a, b, c];
    assert sorted[..0] == [] && sorted[..3] == sorted;
    SelectedStep(sorted, 0, req, env);
    SelectedStep(sorted, 1, req, env);
    SelectedStep(sorted, 2, req, env);
  }

  /**
   * A table of three keys a < b < c asked about c: c's line first, then a
   * and b in that order, each dropped when its timezone does not load.
   */
  lemma ThreeKeys(a: string, b: string, c: string, env: Env, hour: int, minute: int)
    requires LexLess(a, b) && LexLess(b, c)
    requires env.zones.Keys == {a, b, c}
    ensures Countries(HoursLines(Request(hour, minute, c), env)) == [c] + Kept(a, env) + Kept(b, env)
  {
    var req := Request(hour, minute, c);
    ThreeTable(a, b, c, env);
    ThreeSelected(a, b, c, env, req);
    CountriesOfHoursLines(req, env);
  }

  /**
   * Argentina, Chile and Mexico asked about Mexico: Mexico first, then
   * Argentina and Chile, each dropped when its timezone does not load.
   */
  lemma ThreeCountryExample(env: Env, hour: int, minute: int)
    requires env.zones.Keys == {"Argentina", "Chile", "Mexico"}
    ensures Countries(HoursLines(Request(hour, minute, "Mexico"), env))
         == ["Mexico"] + Kept("Argentina", env) + Kept("Chile", env)
  {
    assert LexLess("Argentina", "Chile") && LexLess("Chile", "Mexico");
    ThreeKeys("Argentina", "Chile", "Mexico", env, hour, minute);
  }
}
