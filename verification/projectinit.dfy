/** The choices `tcprojinit` asks for when it sets up a project directory: the
    project name, cleaned and checked, the THERMOCALC input set, and the system of
    that set. The answers typed at the prompts are a sequence read in order. */
module ProjectInit {
  import opened Wrappers
  import opened Numerals

  // ---------------------------------------------------------------- project name

  /** `_`, `string.ascii_letters` and `string.digits`. */
  predicate Allowed(c: char) {
    c == '_' || 'a' <= c <= 'z' || 'A' <= c <= 'Z' || '0' <= c <= '9'
  }

  predicate AllAllowed(s: string) {
    forall k :: 0 <= k < |s| ==> Allowed(s[k])
  }

  /** `s.replace(' ', '_')`. */
  function ReplaceSpaces(s: string): (r: string)
    ensures |r| == |s|
    ensures forall k :: 0 <= k < |s| ==> r[k] == if s[k] == ' ' then '_' else s[k]
  {
    if |s| == 0 then "" else [if s[0] == ' ' then '_' else s[0]] + ReplaceSpaces(s[1..])
  }

  /** `unicodedata.normalize('NFKD', s).encode('ASCII', 'ignore').decode()`,
      with the normalisation left out: characters outside ASCII are dropped as
      they stand. On ASCII input, which NFKD leaves unchanged, this is exact; an
      accented letter, which NFKD would split into its base letter (kept) and a
      combining mark (dropped), is dropped whole here. */
  function AsciiOnly(s: string): (r: string)
    ensures |r| <= |s|
    ensures forall k :: 0 <= k < |r| ==> r[k] as int < 128
  {
    if |s| == 0 then ""
    else if s[0] as int < 128 then [s[0]] + AsciiOnly(s[1..])
    else AsciiOnly(s[1..])
  }

  /** `''.join(c for c in s if c in whitelist)`. */
  function KeepAllowed(s: string): (r: string)
    ensures |r| <= |s|
    ensures AllAllowed(r)
  {
    if |s| == 0 then ""
    else if Allowed(s[0]) then [s[0]] + KeepAllowed(s[1..])
    else KeepAllowed(s[1..])
  }

  /** The name made from one answer: `project` for an empty answer, spaces turned
      into `_`, then only whitelisted characters kept. */
  function CleanName(answer: string): (name: string)
    ensures AllAllowed(name)
  {
    KeepAllowed(AsciiOnly(ReplaceSpaces(if answer == "" then "project" else answer)))
  }

  lemma {:induction false} KeepAllowedAll(s: string)
    requires AllAllowed(s)
    ensures KeepAllowed(s) == s
    decreases |s|
  {
    if |s| > 0 {
      KeepAllowedAll(s[1..]);
      assert s == [s[0]] + s[1..];
    }
  }

  lemma {:induction false} AsciiOnlyAll(s: string)
    requires forall k :: 0 <= k < |s| ==> s[k] as int < 128
    ensures AsciiOnly(s) == s
    decreases |s|
  {
    if |s| > 0 {
      AsciiOnlyAll(s[1..]);
      assert s == [s[0]] + s[1..];
    }
  }

  lemma {:induction false} ReplaceSpacesNone(s: string)
    requires ' ' !in s
    ensures ReplaceSpaces(s) == s
    decreases |s|
  {
    if |s| > 0 {
      ReplaceSpacesNone(s[1..]);
      assert s == [s[0]] + s[1..];
    }
  }

  /** An answer of whitelisted characters and spaces becomes that answer with
      every space turned into `_`. */
  lemma CleanNameOfSpaced(answer: string)
    requires answer != ""
    requires forall k :: 0 <= k < |answer| ==> Allowed(answer[k]) || answer[k] == ' '
    ensures CleanName(answer) == ReplaceSpaces(answer)
  {
    var r := ReplaceSpaces(answer);
    assert AllAllowed(r) by {
      forall k | 0 <= k < |r| ensures Allowed(r[k]) {
        assert r[k] == if answer[k] == ' ' then '_' else answer[k];
      }
    }
    assert forall k :: 0 <= k < |r| ==> r[k] as int < 128 by {
      forall k | 0 <= k < |r| ensures r[k] as int < 128 {
        assert Allowed(r[k]);
      }
    }
    AsciiOnlyAll(r);
    KeepAllowedAll(r);
    assert CleanName(answer) == KeepAllowed(AsciiOnly(r));
  }

  /** Cleaning a cleaned name that is not empty changes nothing more. */
  lemma CleanNameIdempotent(answer: string)
    requires CleanName(answer) != ""
    ensures CleanName(CleanName(answer)) == CleanName(answer)
  {
    CleanNameOfAllowed(CleanName(answer));
  }

  /** A name of whitelisted characters is its own cleaned name. */
  lemma CleanNameOfAllowed(s: string)
    requires s != "" && AllAllowed(s)
    ensures CleanName(s) == s
  {
    assert ' ' !in s by {
      forall k | 0 <= k < |s| ensures s[k] != ' ' {
        assert Allowed(s[k]);
      }
    }
    ReplaceSpacesNone(s);
    assert forall k :: 0 <= k < |s| ==> s[k] as int < 128 by {
      forall k | 0 <= k < |s| ensures s[k] as int < 128 {
        assert Allowed(s[k]);
      }
    }
    AsciiOnlyAll(s);
    KeepAllowedAll(s);
  }

  /** An empty answer names the project `project`. */
  lemma CleanNameEmpty()
    ensures CleanName("") == "project"
  {
    CleanNameOfAllowed("project");
  }

  /** The check on a cleaned name: an error message, or `None` when it is accepted. */
  function NameProblem(name: string): (msg: Option<string>)
    ensures msg.None? <==> 1 <= |name| <= 8
  {
    if |name| < 1 then Some("ERROR: project name may not be empty")
    else if |name| > 8 then Some("ERROR: project name may not be longer than 8 characters")
    else None
  }

  /** What one answer to the name prompt yields: the cleaned name if it is accepted. */
  function NameVerdict(answer: string): (v: Option<string>)
    ensures v.Some? ==> 1 <= |v.value| <= 8 && AllAllowed(v.value)
  {
    var name := CleanName(answer);
    if NameProblem(name).None? then Some(name) else None
  }

  /** The index of the first answer that is taken, `None` when none is. */
  function FirstSome<T>(xs: seq<Option<T>>): (r: Option<nat>)
    ensures r.None? <==> forall k :: 0 <= k < |xs| ==> xs[k].None?
    ensures r.Some? ==> r.value < |xs| && xs[r.value].Some?
    ensures r.Some? ==> forall k :: 0 <= k < r.value ==> xs[k].None?
  {
    FirstSomeFrom(xs, 0)
  }

  function FirstSomeFrom<T>(xs: seq<Option<T>>, i: nat): (r: Option<nat>)
    requires i <= |xs| && forall k :: 0 <= k < i ==> xs[k].None?
    ensures r.None? <==> forall k :: 0 <= k < |xs| ==> xs[k].None?
    ensures r.Some? ==> i <= r.value < |xs| && xs[r.value].Some?
    ensures r.Some? ==> forall k :: 0 <= k < r.value ==> xs[k].None?
    decreases |xs| - i
  {
    if i == |xs| then None else if xs[i].Some? then Some(i) else FirstSomeFrom(xs, i + 1)
  }

  function NameVerdicts(answers: seq<string>): (vs: seq<Option<string>>)
    ensures |vs| == |answers|
    ensures forall k :: 0 <= k < |answers| ==> vs[k] == NameVerdict(answers[k])
  {
    seq(|answers|, k requires 0 <= k < |answers| => NameVerdict(answers[k]))
  }

  /** The name prompt repeated until an answer is accepted: the accepted name and
      how many answers were read, `None` when the answers run out first. */
  function AskName(answers: seq<string>): (r: Option<(string, nat)>)
    ensures r.None? <==> forall k :: 0 <= k < |answers| ==> NameVerdict(answers[k]).None?
    ensures r.Some? ==> 1 <= r.value.1 <= |answers| && NameVerdict(answers[r.value.1 - 1]) == Some(r.value.0)
    ensures r.Some? ==> forall k :: 0 <= k < r.value.1 - 1 ==> NameVerdict(answers[k]).None?
  {
    var vs := NameVerdicts(answers);
    match FirstSome(vs)
    case None => None
    case Some(k) => Some((vs[k].value, k + 1))
  }

  // ---------------------------------------------------------------- numbered choices

  /** One answer to `Which set? [1]` or `Which system? [1]`: an empty answer means
      `1`; anything `int` cannot read, or a number outside `1..count`, asks again. */
  function Choice(answer: string, count: nat): (c: Option<nat>)
    ensures c.Some? ==> 1 <= c.value <= count
  {
    var v := PyInt(if answer == "" then "1" else answer);
    if v.Ok? && 1 <= v.value <= count then Some(v.value as nat) else None
  }

  function Choices(answers: seq<string>, count: nat): (cs: seq<Option<nat>>)
    ensures |cs| == |answers|
    ensures forall k :: 0 <= k < |answers| ==> cs[k] == Choice(answers[k], count)
  {
    seq(|answers|, k requires 0 <= k < |answers| => Choice(answers[k], count))
  }

  /** The choice prompt repeated until an answer is a valid choice: the choice
      and how many answers were read. */
  function AskChoice(answers: seq<string>, count: nat): (r: Option<(nat, nat)>)
    ensures r.None? <==> forall k :: 0 <= k < |answers| ==> Choice(answers[k], count).None?
    ensures r.Some? ==> 1 <= r.value.1 <= |answers| && Choice(answers[r.value.1 - 1], count) == Some(r.value.0)
    ensures r.Some? ==> 1 <= r.value.0 <= count
    ensures r.Some? ==> forall k :: 0 <= k < r.value.1 - 1 ==> Choice(answers[k], count).None?
  {
    var cs := Choices(answers, count);
    var first := FirstSome(cs);
    if first.None? then None
    else
      var k := first.value;
      assert cs[k] == Choice(answers[k], count);
      Some((cs[k].value, k + 1))
  }

  /** A number written out in decimal is taken exactly when it is in range. */
  lemma ChoiceOfNumeral(i: int, count: nat)
    ensures Choice(IntToString(i), count).Some? <==> 1 <= i <= count
    ensures 1 <= i <= count ==> Choice(IntToString(i), count) == Some(i as nat)
  {
    IntToStringRoundTrip(i);
    assert IntToString(i) != "";
  }

  /** The empty answer picks the first entry. */
  lemma EmptyAnswerIsFirst(count: nat)
    requires count >= 1
    ensures Choice("", count) == Some(1)
  {
    IntToStringRoundTrip(1);
    assert IntToString(1) == "1";
  }

  lemma FirstAnswerTaken(answers: seq<string>, count: nat)
    requires |answers| >= 1 && count >= 1 && answers[0] == ""
    ensures AskChoice(answers, count) == Some((1, 1))
  {
    EmptyAnswerIsFirst(count);
    assert Choice(answers[0], count).Some?;
  }

  // ---------------------------------------------------------------- sets and datasets

  datatype InputSet = Metapelite | Metabasite | Igneous

  function SetOf(n: nat): (s: InputSet)
    requires 1 <= n <= 3
  {
    if n == 1 then Metapelite else if n == 2 then Metabasite else Igneous
  }

  /** The systems offered for a set; metabasite offers one and asks nothing. */
  function Systems(s: InputSet): (ss: seq<string>)
    ensures |ss| >= 1
  {
    match s
    case Metapelite => ["mp50MnNCKFMASHTO", "mp50NCKFMASHTO", "mp50KFMASH"]
    case Metabasite => ["mb50NCKFMASHTO"]
    case Igneous => ["ig50NCKFMASHTOCr", "ig50NCKFMASTOCr"]
  }

  /** The dataset the prefs file names for a set. */
  function Dataset(s: InputSet): (ds: string)
    ensures ds == "62" <==> s != Igneous
    ensures ds == "633" <==> s == Igneous
  {
    if s == Igneous then "633" else "62"
  }

  datatype Project = Project(name: string, tcset: InputSet, dataset: string, system: string)

  /** The system a numbered choice names, `None` when no choice was made. */
  function SystemOf(tcset: InputSet, chosen: Option<(nat, nat)>): (r: Option<string>)
    requires chosen.Some? ==> 1 <= chosen.value.0 <= |Systems(tcset)|
    ensures r.Some? <==> chosen.Some?
  {
    if chosen.None? then None else Some(Systems(tcset)[chosen.value.0 - 1])
  }

  /** The system prompt for a chosen set, read from `rest`; metabasite offers
      one system and asks nothing. */
  function PickSystem(tcset: InputSet, rest: seq<string>): (r: Option<string>)
    ensures r.Some? ==> r.value in Systems(tcset)
    ensures tcset == Metabasite ==> r == Some(Systems(tcset)[0])
  {
    if tcset == Metabasite then Some(Systems(tcset)[0])
    else SystemOf(tcset, AskChoice(rest, |Systems(tcset)|))
  }

  /** The set prompt then the system prompt, read from `rest`. */
  function PickSet(name: string, rest: seq<string>): (r: Option<Project>)
    ensures r.Some? ==> r.value.name == name
    ensures r.Some? ==> r.value.dataset == Dataset(r.value.tcset) && r.value.system in Systems(r.value.tcset)
  {
    var chosen := AskChoice(rest, 3);
    if chosen.None? then None
    else
      var tcset := SetOf(chosen.value.0);
      var system := PickSystem(tcset, rest[chosen.value.1..]);
      if system.None? then None
      else Some(Project(name, tcset, Dataset(tcset), system.value))
  }

  /** The answers after the directory prompt: the name, the set, then the system.
      `None` when the answers run out. */
  function Setup(answers: seq<string>): (r: Option<Project>)
    ensures r.Some? ==> 1 <= |r.value.name| <= 8 && AllAllowed(r.value.name)
    ensures r.Some? ==> r.value.dataset == Dataset(r.value.tcset) && r.value.system in Systems(r.value.tcset)
  {
    var asked := AskName(answers);
    if asked.None? then None else PickSet(asked.value.0, answers[asked.value.1..])
  }

  lemma FirstNameTaken(answers: seq<string>)
    requires |answers| >= 1 && NameVerdict(answers[0]).Some?
    ensures AskName(answers) == Some((NameVerdict(answers[0]).value, 1))
  {
    var vs := NameVerdicts(answers);
    assert vs[0].Some?;
    assert FirstSome(vs) == Some(0);
  }

  /** The system prompt reads the answer the choice prompt accepts. */
  lemma PickSystemReads(tcset: InputSet, rest: seq<string>, v: nat)
    requires tcset != Metabasite
    requires AskChoice(rest, |Systems(tcset)|).Some? && AskChoice(rest, |Systems(tcset)|).value.0 == v
    ensures 1 <= v <= |Systems(tcset)|
    ensures PickSystem(tcset, rest) == Some(Systems(tcset)[v - 1])
  {
    var c := AskChoice(rest, |Systems(tcset)|);
    assert PickSystem(tcset, rest) == SystemOf(tcset, c);
  }

  /** After the name, the set is read, then the system from the answers the set
      prompt did not use. */
  lemma PickSetReads(name: string, rest: seq<string>, n: nat, used: nat, system: string)
    requires AskChoice(rest, 3) == Some((n, used))
    requires used <= |rest|
    requires PickSystem(SetOf(n), rest[used..]) == Some(system)
    ensures PickSet(name, rest) == Some(Project(name, SetOf(n), Dataset(SetOf(n)), system))
  {
  }

  /** The name is read first; the set and system prompts start after the answers
      it used. */
  lemma SetupReads(answers: seq<string>, name: string, used: nat)
    requires AskName(answers) == Some((name, used))
    ensures used <= |answers|
    ensures Setup(answers) == PickSet(name, answers[used..])
  {
  }

  /** Pressing enter at every prompt sets up `project` on the first system of the
      metapelite set. */
  lemma SetupDefaults()
    ensures Setup(["", "", ""]) == Some(Project("project", Metapelite, "62", "mp50MnNCKFMASHTO"))
  {
    var answers := ["", "", ""];
    CleanNameEmpty();
    assert NameVerdict(answers[0]) == Some("project");
    FirstNameTaken(answers);
    assert answers[1..] == ["", ""];
    FirstAnswerTaken(answers[1..], 3);
    assert answers[1..][1..] == [""];
    FirstAnswerTaken(answers[1..][1..], 3);
    PickSystemReads(Metapelite, answers[1..][1..], 1);
    PickSetReads("project", answers[1..], 1, 1, "mp50MnNCKFMASHTO");
    SetupReads(answers, "project", 1);
  }
}
