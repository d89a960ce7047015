/**
 * The configuration loader of src/configuration.cpp: a loop over the lines of a file
 * that updates the manager's fields and stops at the first line it cannot use.
 */
module Configuration {
  import opened Machine
  import opened Options
  import opened CText
  import opened StringTools

  datatype Config = Config(
    port: i32, threads: i32, useSsl: bool,
    listenAddress: string, logVerbosity: string, logSinks: string, apiKey: string, vip: string,
    sslKeyFile: string, sslCertChainFile: string, sslDhFile: string)

  /** What the constructor sets. */
  const DEFAULTS: Config := Config(8080, 2, false, "0.0.0.0", "", "", "", "", "", "", "")

  datatype Key =
    | Port | ListenAddress | LogVerbosity | LogSinks | Threads | ApiKey | Vip
    | UseSsl | SslKeyFile | SslCertChainFile | SslDhFile

  function Name(k: Key): (s: string) {
    match k
    case Port => "port"
    case ListenAddress => "listen_address"
    case LogVerbosity => "log_verbosity"
    case LogSinks => "log_sinks"
    case Threads => "threads"
    case ApiKey => "api_key"
    case Vip => "vip"
    case UseSsl => "use_ssl"
    case SslKeyFile => "ssl_key_file"
    case SslCertChainFile => "ssl_cert_chain_file"
    case SslDhFile => "ssl_dh_file"
  }

  function KeyOf(s: string): (k: Option<Key>) {
    if s == "port" then Some(Port)
    else if s == "listen_address" then Some(ListenAddress)
    else if s == "log_verbosity" then Some(LogVerbosity)
    else if s == "log_sinks" then Some(LogSinks)
    else if s == "threads" then Some(Threads)
    else if s == "api_key" then Some(ApiKey)
    else if s == "vip" then Some(Vip)
    else if s == "use_ssl" then Some(UseSsl)
    else if s == "ssl_key_file" then Some(SslKeyFile)
    else if s == "ssl_cert_chain_file" then Some(SslCertChainFile)
    else if s == "ssl_dh_file" then Some(SslDhFile)
    else None
  }

  predicate Truthy(v: string) {
    ToLower(v) == "yes" || ToLower(v) == "true"
  }

  function Apply(c: Config, k: Key, v: string): (c': Config) {
    match k
    case Port => c.(port := Atoi(v))
    case ListenAddress => c.(listenAddress := v)
    case LogVerbosity => c.(logVerbosity := v)
    case LogSinks => c.(logSinks := v)
    case Threads => c.(threads := Atoi(v))
    case ApiKey => c.(apiKey := v)
    case Vip => c.(vip := v)
    case UseSsl => if Truthy(v) then c.(useSsl := true) else c
    case SslKeyFile => c.(sslKeyFile := v)
    case SslCertChainFile => c.(sslCertChainFile := v)
    case SslDhFile => c.(sslDhFile := v)
  }

  // ---- one line -----------------------------------------------------------

  datatype Line = Skip | Bad | Setting(key: Key, value: string)

  function Classify(raw: string): (l: Line) {
    var line := Trim(raw);
    if line == "" || StartsWith("#", line) then Skip
    else
      var kvp := Split(line, ":", 2);
      if |kvp| != 2 then Bad
      else
        match KeyOf(ToLower(kvp[0]))
        case None => Bad
        case Some(k) => Setting(k, Trim(kvp[1]))
  }

  // ---- the whole file -----------------------------------------------------

  datatype Outcome = Outcome(config: Config, valid: bool)

  function Step(c: Config, l: Line): (c': Config) {
    if l.Setting? then Apply(c, l.key, l.value) else c
  }

  /** The effect of a list of classified lines: stop at the first bad one. */
  function Load(c: Config, lines: seq<Line>): (r: Outcome)
    decreases |lines|
  {
    if lines == [] then Outcome(c, true)
    else if lines[0].Bad? then Outcome(c, false)
    else Load(Step(c, lines[0]), lines[1..])
  }

  function ClassifyAll(raws: seq<string>): (ls: seq<Line>)
    ensures |ls| == |raws|
    ensures forall i | 0 <= i < |raws| :: ls[i] == Classify(raws[i])
  {
    seq(|raws|, i requires 0 <= i < |raws| => Classify(raws[i]))
  }

  /** The lines `std::getline` yields: no empty line after a final newline. */
  function Lines(content: string): (ls: seq<string>) {
    var ps := Split(content, "\n", -1);
    if ps[|ps| - 1] == "" then ps[..|ps| - 1] else ps
  }

  class ConfigurationManager {
    var port: i32
    var threads: i32
    var useSsl: bool
    var listenAddress: string
    var logVerbosity: string
    var logSinks: string
    var apiKey: string
    var vip: string
    var sslKeyFile: string
    var sslCertChainFile: string
    var sslDhFile: string

    function View(): (c: Config)
      reads this
    {
      Config(port, threads, useSsl, listenAddress, logVerbosity, logSinks, apiKey, vip,
             sslKeyFile, sslCertChainFile, sslDhFile)
    }

    constructor ()
      ensures View() == DEFAULTS
    {
      port, listenAddress, threads, useSsl := 8080, "0.0.0.0", 2, false;
      logVerbosity, logSinks, apiKey, vip := "", "", "", "";
      sslKeyFile, sslCertChainFile, sslDhFile := "", "", "";
    }

    /** Loads a file; `None` stands for a file that cannot be opened. */
    method Open(file: Option<string>) returns (valid: bool)
      modifies this
      ensures file.None? ==> !valid && View() == old(View())
      ensures file.Some? ==> Outcome(View(), valid) == Load(old(View()), ClassifyAll(Lines(file.value)))
    {
      if file.None? {
        return false;
      }
      var lines := Lines(file.value);
      ghost var all := ClassifyAll(lines);
      var next := 0;
      valid := true;
      while next < |lines|
        invariant next <= |lines| && valid
        invariant Load(View(), all[next..]) == Load(old(View()), all)
      {
        assert all[next..][0] == all[next] && all[next..][1..] == all[next + 1..];
        valid := ReadLine(lines[next]);
        next := next + 1;
        if !valid {
          break;
        }
      }
    }

    /** The loop body: false stops the loop. */
    method ReadLine(raw: string) returns (go: bool)
      modifies this
      ensures go == !Classify(raw).Bad?
      ensures View() == Step(old(View()), Classify(raw))
    {
      var line := StrTrim(raw);
      if line == "" {
        return true;
      }
      if StartsWith("#", line) {
        return true;
      }
      var kvp := StrSplit(line, ":", 2);
      if |kvp| != 2 {
        return false;
      }
      var key := StrToLower(kvp[0]);
      var value := StrTrim(kvp[1]);
      var known := KeyOf(key);
      if known.None? {
        return false;
      }
      Store(known.value, value);
      return true;
    }

    /** The assignment selected by the chain of key comparisons. */
    method Store(key: Key, value: string)
      modifies this
      ensures View() == Apply(old(View()), key, value)
    {
      match key {
        case Port => port := Atoi(value);
        case ListenAddress => listenAddress := value;
        case LogVerbosity => logVerbosity := value;
        case LogSinks => logSinks := value;
        case Threads => threads := Atoi(value);
        case ApiKey => apiKey := value;
        case Vip => vip := value;
        case UseSsl =>
          var lval := StrToLower(value);
          if lval == "yes" || lval == "true" {
            useSsl := true;
          }
        case SslKeyFile => sslKeyFile := value;
        case SslCertChainFile => sslCertChainFile := value;
        case SslDhFile => sslDhFile := value;
      }
    }
  }

  // ---- which text does what -----------------------------------------------

  /** The switch goes on for "yes" and "true", in whatever case. */
  lemma {:induction false} TruthyIff(v: string)
    ensures Truthy(v) <==> SameText(v, "yes") || SameText(v, "true")
  {
    hide ToLower, SameText;
    LoweredIff(v, "yes");
    LoweredIff(v, "true");
  }

  /** The field that a name in the file stands for. */
  function NamedField(c: Config, name: string): (f: Option<FieldValue>) {
    if name == "port" then Some(Num(c.port))
    else if name == "threads" then Some(Num(c.threads))
    else if name == "use_ssl" then Some(Flag(c.useSsl))
    else if name == "listen_address" then Some(Text(c.listenAddress))
    else if name == "log_verbosity" then Some(Text(c.logVerbosity))
    else if name == "log_sinks" then Some(Text(c.logSinks))
    else if name == "api_key" then Some(Text(c.apiKey))
    else if name == "vip" then Some(Text(c.vip))
    else if name == "ssl_key_file" then Some(Text(c.sslKeyFile))
    else if name == "ssl_cert_chain_file" then Some(Text(c.sslCertChainFile))
    else if name == "ssl_dh_file" then Some(Text(c.sslDhFile))
    else None
  }

  /** The keys are the eleven names, each for its field. */
  lemma {:induction false} KeysAreNames(c: Config, name: string)
    ensures KeyOf(name).Some? <==> NamedField(c, name).Some?
    ensures KeyOf(name).Some? ==> NamedField(c, name) == Some(Field(c, KeyOf(name).value))
  {
  }

  /** Blank, or a comment. */
  predicate BlankOrComment(raw: string) {
    Trim(raw) == "" || Trim(raw)[0] == '#'
  }

  lemma {:induction false} SkipIff(raw: string)
    ensures Classify(raw).Skip? <==> BlankOrComment(raw)
  {
    hide Trim, Split, ToLower, KeyOf;
    CommentIff(Trim(raw));
  }

  lemma {:induction false} CommentIff(line: string)
    ensures StartsWith("#", line) <==> line != "" && line[0] == '#'
  {
    StartsWithIff("#", line);
    if line != "" && line[0] != NUL {
      assert CStr(line) != "" && CStr(line)[0] == line[0];
    }
  }

  /** The line is `name:tail`, cut at the first colon. */
  predicate CutsInto(line: string, name: string, tail: string) {
    line == name + ":" + tail && ':' !in name
  }

  lemma {:induction false} KeyIff(name: string, k: Key)
    ensures KeyOf(ToLower(name)) == Some(k) <==> SameText(name, Name(k))
  {
    hide ToLower, SameText, KeyOf, Name;
    NameFacts(k);
    assert forall i | 0 <= i < |Name(k)| :: Name(k)[i] in Name(k);
    LoweredIff(name, Name(k));
    KeyIsNamed(ToLower(name));
  }

  lemma {:induction false} KeyIsNamed(s: string)
    ensures KeyOf(s).Some? ==> Name(KeyOf(s).value) == s
  {
  }

  /** A line sets a key exactly when the text before its first colon is the key's name, in whatever case. */
  lemma {:induction false} SettingIff(raw: string, name: string, tail: string, k: Key)
    requires !BlankOrComment(raw) && CutsInto(Trim(raw), name, tail)
    ensures Classify(raw) == Setting(k, Trim(tail)) <==> SameText(name, Name(k))
  {
    hide Trim, ToLower, KeyOf, SameText, Name, Classify;
    ColonLine(raw, name, tail);
    KeyIff(name, k);
  }

  lemma {:induction false} ColonLine(raw: string, name: string, tail: string)
    requires !BlankOrComment(raw) && CutsInto(Trim(raw), name, tail)
    ensures Classify(raw) ==
            match KeyOf(ToLower(name))
            case None => Bad
            case Some(k) => Setting(k, Trim(tail))
  {
    hide Trim, Split, ToLower, KeyOf, StartsWith;
    CommentIff(Trim(raw));
    SplitAtColon(name, tail);
  }

  /** A line without a colon is bad. */
  lemma {:induction false} NoColonIsBad(raw: string)
    requires !BlankOrComment(raw) && ':' !in Trim(raw)
    ensures Classify(raw).Bad?
  {
    hide Trim, ToLower, KeyOf, StartsWith, Cut, Find;
    var line := Trim(raw);
    CommentIff(line);
    FreeOfChar(line, ':');
    FindIsFirst(line, ":");
    CutStep(line, ":", 2);
  }

  /** The bad lines, told from their text: no colon, or a name before it that is none of the eleven. */
  lemma {:induction false} BadIff(c: Config, raw: string)
    ensures Classify(raw).Bad? <==>
            && !BlankOrComment(raw)
            && (forall name, tail | CutsInto(Trim(raw), name, tail) :: NamedField(c, ToLower(name)).None?)
  {
    hide Classify, Trim, ToLower, KeyOf, NamedField;
    var line := Trim(raw);
    SkipIff(raw);
    if !BlankOrComment(raw) {
      if ':' in line {
        var name, tail := FirstColon(line);
        ColonLine(raw, name, tail);
        KeysAreNames(c, ToLower(name));
        OneCut(line, name, tail);
      } else {
        NoColonIsBad(raw);
        NoCut(line);
      }
    }
  }

  lemma {:induction false} FirstColon(line: string) returns (name: string, tail: string)
    requires ':' in line
    ensures CutsInto(line, name, tail)
  {
    hide IndexOf;
    var i := IndexOf(line, ':');
    name, tail := line[..i], line[i + 1..];
    assert line == name + [line[i]] + tail;
  }

  lemma {:induction false} NoCut(line: string)
    requires ':' !in line
    ensures forall name, tail :: !CutsInto(line, name, tail)
  {
    forall name: string, tail: string
      ensures ':' in name + ":" + tail
    {
      assert (name + ":" + tail)[|name|] == ':';
    }
  }

  lemma {:induction false} OneCut(line: string, name: string, tail: string)
    requires CutsInto(line, name, tail)
    ensures forall n, t | CutsInto(line, n, t) :: n == name && t == tail
  {
    hide IndexOf;
    IndexOfUnique(name, ':', tail);
    forall n, t | CutsInto(line, n, t)
      ensures n == name && t == tail
    {
      IndexOfUnique(n, ':', t);
      assert line[..|n|] == n && line[..|name|] == name && line[|n| + 1..] == t && line[|name| + 1..] == tail;
    }
  }

  function WithoutComments(raws: seq<string>): (r: seq<string>) {
    if raws == [] then []
    else if BlankOrComment(raws[0]) then WithoutComments(raws[1..])
    else [raws[0]] + WithoutComments(raws[1..])
  }

  /** Blank and comment lines can be removed from a file. */
  lemma {:induction false} CommentsDoNotMatter(c: Config, raws: seq<string>)
    ensures Load(c, ClassifyAll(raws)) == Load(c, ClassifyAll(WithoutComments(raws)))
    decreases |raws|
  {
    hide Classify, BlankOrComment;
    if raws != [] {
      var ls := ClassifyAll(raws);
      SkipIff(raws[0]);
      assert ls[1..] == ClassifyAll(raws[1..]);
      CommentsDoNotMatter(Step(c, ls[0]), raws[1..]);
      if !BlankOrComment(raws[0]) {
        var rest := WithoutComments(raws[1..]);
        assert ClassifyAll([raws[0]] + rest)[1..] == ClassifyAll(rest);
      }
    }
  }

  /** The lines of a file: what stands between its newlines, without an empty last piece. */
  lemma {:induction false} LinesOf(ls: seq<string>)
    requires |ls| > 0 && forall i | 0 <= i < |ls| :: '\n' !in ls[i]
    ensures Lines(Join(ls, "\n")) == if ls[|ls| - 1] == "" then ls[..|ls| - 1] else ls
  {
    SplitJoinChar(ls, '\n');
  }

  /** A newline at the end of a last line makes no difference. */
  lemma {:induction false} FinalNewlineOptional(ls: seq<string>)
    requires |ls| > 0 && ls[|ls| - 1] != "" && forall i | 0 <= i < |ls| :: '\n' !in ls[i]
    ensures Lines(Join(ls, "\n")) == ls && Lines(Join(ls, "\n") + "\n") == ls
  {
    LinesOf(ls);
    LinesOf(ls + [""]);
    JoinSnoc(ls, "\n");
    assert (ls + [""])[..|ls|] == ls;
  }

  lemma {:induction false} JoinSnoc(ls: seq<string>, d: string)
    requires |ls| > 0
    ensures Join(ls + [""], d) == Join(ls, d) + d
  {
    if |ls| > 1 {
      JoinSnoc(ls[1..], d);
      assert (ls + [""])[1..] == ls[1..] + [""];
    } else {
      assert (ls + [""])[1..] == [""];
    }
  }

  // ---- which lines matter -------------------------------------------------

  predicate NoBad(lines: seq<Line>) {
    forall i | 0 <= i < |lines| :: !lines[i].Bad?
  }

  lemma {:induction false} LoadConcat(c: Config, xs: seq<Line>, ys: seq<Line>)
    requires NoBad(xs)
    ensures Load(c, xs).valid
    ensures Load(c, xs + ys) == Load(Load(c, xs).config, ys)
    decreases |xs|
  {
    if xs == [] {
      assert xs + ys == ys;
    } else {
      assert (xs + ys)[0] == xs[0] && (xs + ys)[1..] == xs[1..] + ys;
      LoadConcat(Step(c, xs[0]), xs[1..], ys);
    }
  }

  /** The first bad line fails the load and leaves exactly the effect of the lines before it. */
  lemma {:induction false} FirstBadLineStops(c: Config, before: seq<Line>, after: seq<Line>)
    requires NoBad(before)
    ensures Load(c, before + [Bad] + after) == Outcome(Load(c, before).config, false)
  {
    assert before + [Bad] + after == before + ([Bad] + after);
    LoadConcat(c, before, [Bad] + after);
  }

  function WithoutSkips(lines: seq<Line>): (r: seq<Line>) {
    if lines == [] then []
    else if lines[0].Skip? then WithoutSkips(lines[1..])
    else [lines[0]] + WithoutSkips(lines[1..])
  }

  /** Blank and comment lines never matter. */
  lemma {:induction false} SkippedLinesDoNotMatter(c: Config, lines: seq<Line>)
    ensures Load(c, lines) == Load(c, WithoutSkips(lines))
    decreases |lines|
  {
    if lines != [] {
      SkippedLinesDoNotMatter(Step(c, lines[0]), lines[1..]);
      var rest := WithoutSkips(lines[1..]);
      assert ([lines[0]] + rest)[1..] == rest;
    }
  }

  // ---- what each field ends up with ---------------------------------------

  datatype FieldValue = Num(n: i32) | Text(s: string) | Flag(b: bool)

  function Field(c: Config, k: Key): (f: FieldValue) {
    match k
    case Port => Num(c.port)
    case ListenAddress => Text(c.listenAddress)
    case LogVerbosity => Text(c.logVerbosity)
    case LogSinks => Text(c.logSinks)
    case Threads => Num(c.threads)
    case ApiKey => Text(c.apiKey)
    case Vip => Text(c.vip)
    case UseSsl => Flag(c.useSsl)
    case SslKeyFile => Text(c.sslKeyFile)
    case SslCertChainFile => Text(c.sslCertChainFile)
    case SslDhFile => Text(c.sslDhFile)
  }

  lemma {:induction false} ConfigFromFields(a: Config, b: Config)
    requires forall k :: Field(a, k) == Field(b, k)
    ensures a == b
  {
    assert Field(a, Port) == Field(b, Port) && Field(a, ListenAddress) == Field(b, ListenAddress);
    assert Field(a, LogVerbosity) == Field(b, LogVerbosity) && Field(a, LogSinks) == Field(b, LogSinks);
    assert Field(a, Threads) == Field(b, Threads) && Field(a, ApiKey) == Field(b, ApiKey);
    assert Field(a, Vip) == Field(b, Vip) && Field(a, UseSsl) == Field(b, UseSsl);
    assert Field(a, SslKeyFile) == Field(b, SslKeyFile) && Field(a, SslDhFile) == Field(b, SslDhFile);
    assert Field(a, SslCertChainFile) == Field(b, SslCertChainFile);
  }

  function ValuesOf(l: Line, k: Key): (vs: seq<string>) {
    if l.Setting? && l.key == k then [l.value] else []
  }

  /** The values the lines give to one key, in file order. */
  function ValuesFor(lines: seq<Line>, k: Key): (vs: seq<string>) {
    if lines == [] then [] else ValuesOf(lines[0], k) + ValuesFor(lines[1..], k)
  }

  /** The value of a field after a list of assignments: the last one wins, but SSL is only ever switched on. */
  function Settled(old_: FieldValue, k: Key, vs: seq<string>): (f: FieldValue) {
    if vs == [] then old_
    else
      var last := vs[|vs| - 1];
      match k
      case UseSsl => Flag(old_ == Flag(true) || exists i | 0 <= i < |vs| :: Truthy(vs[i]))
      case Port => Num(Atoi(last))
      case Threads => Num(Atoi(last))
      case _ => Text(last)
  }

  /** After a successful load each field holds what its own lines settle, independently of all others. */
  lemma {:induction false} LastLineWins(c: Config, lines: seq<Line>, k: Key)
    requires NoBad(lines)
    ensures Load(c, lines).valid
    ensures Field(Load(c, lines).config, k) == Settled(Field(c, k), k, ValuesFor(lines, k))
    decreases |lines|
  {
    if lines != [] {
      LastLineWins(Step(c, lines[0]), lines[1..], k);
      StepSettles(c, lines[0], k, ValuesFor(lines[1..], k));
    }
  }

  /** An assignment settles its own field and no other. */
  lemma {:induction false} ApplyFields(c: Config, k: Key, v: string, k': Key)
    ensures Field(Apply(c, k, v), k') == if k' == k then Settled(Field(c, k), k, [v]) else Field(c, k')
  {
    assert [v][0] == v;
  }

  lemma {:induction false} StepSettles(c: Config, l: Line, k: Key, rest: seq<string>)
    ensures Settled(Field(Step(c, l), k), k, rest) == Settled(Field(c, k), k, ValuesOf(l, k) + rest)
  {
    if l.Setting? {
      ApplyFields(c, l.key, l.value, k);
    }
    if l.Setting? && l.key == k {
      SettledCons(Field(c, k), Field(Step(c, l), k), k, l.value, rest);
    } else {
      assert ValuesOf(l, k) + rest == rest;
    }
  }

  lemma {:induction false} SettledCons(f: FieldValue, f': FieldValue, k: Key, v: string, rest: seq<string>)
    requires f' == Settled(f, k, [v]) && (k == UseSsl ==> f.Flag?)
    ensures Settled(f', k, rest) == Settled(f, k, [v] + rest)
  {
    hide Truthy, Atoi;
    var all := [v] + rest;
    if rest == [] {
      assert all == [v];
    } else {
      assert all[|all| - 1] == rest[|rest| - 1];
      SomeTruthy(v, rest);
      SomeTruthy(v, []);
      assert [v] + [] == [v];
    }
  }

  lemma {:induction false} SomeTruthy(v: string, rest: seq<string>)
    ensures (exists i | 0 <= i < |[v] + rest| :: Truthy(([v] + rest)[i])) <==>
            (Truthy(v) || exists i | 0 <= i < |rest| :: Truthy(rest[i]))
  {
    hide Truthy;
    var all := [v] + rest;
    assert all[0] == v && forall i | 0 <= i < |rest| :: all[i + 1] == rest[i];
    if i :| 0 <= i < |all| && Truthy(all[i]) {
      assert i > 0 ==> rest[i - 1] == all[i];
    }
  }

  /** Two files that give every key the same values in the same order load alike. */
  lemma {:induction false} SameValuesSameConfig(c: Config, xs: seq<Line>, ys: seq<Line>)
    requires NoBad(xs) && NoBad(ys)
    requires forall k :: ValuesFor(xs, k) == ValuesFor(ys, k)
    ensures Load(c, xs) == Load(c, ys)
  {
    forall k
      ensures Field(Load(c, xs).config, k) == Field(Load(c, ys).config, k)
    {
      LastLineWins(c, xs, k);
      LastLineWins(c, ys, k);
    }
    LastLineWins(c, xs, Port);
    LastLineWins(c, ys, Port);
    ConfigFromFields(Load(c, xs).config, Load(c, ys).config);
  }

  lemma {:induction false} ValuesForConcat(xs: seq<Line>, ys: seq<Line>, k: Key)
    ensures ValuesFor(xs + ys, k) == ValuesFor(xs, k) + ValuesFor(ys, k)
  {
    if xs == [] {
      assert xs + ys == ys;
    } else {
      assert (xs + ys)[1..] == xs[1..] + ys;
      ValuesForConcat(xs[1..], ys, k);
    }
  }

  lemma {:induction false} ValuesOfPermutation(xs: seq<Line>, ys: seq<Line>, k: Key)
    requires multiset(xs) == multiset(ys)
    ensures multiset(ValuesFor(xs, k)) == multiset(ValuesFor(ys, k))
  {
    if xs == [] {
      assert |multiset(ys)| == 0;
    } else {
      var l, r := TakeOut(xs, ys);
      ValuesOfPermutation(xs[1..], l + r, k);
      ValuesForConcat(l, r, k);
      ValuesForConcat(l, [xs[0]] + r, k);
      assert ([xs[0]] + r)[1..] == r;
    }
  }

  /** The first element of one arrangement, found in the other. */
  lemma {:induction false} TakeOut(xs: seq<Line>, ys: seq<Line>) returns (l: seq<Line>, r: seq<Line>)
    requires xs != [] && multiset(xs) == multiset(ys)
    ensures ys == l + ([xs[0]] + r) && multiset(xs[1..]) == multiset(l + r)
  {
    assert xs[0] in multiset(ys);
    var j :| 0 <= j < |ys| && ys[j] == xs[0];
    l, r := ys[..j], ys[j + 1..];
    assert ys == l + ([xs[0]] + r);
    assert xs == [xs[0]] + xs[1..];
    var one := multiset{xs[0]};
    assert multiset(xs) == one + multiset(xs[1..]);
    assert multiset(ys) == multiset(l) + (one + multiset(r));
    assert multiset(xs[1..]) == multiset(xs) - one;
    assert multiset(l + r) == multiset(ys) - one;
  }

  /** Reordering valid lines whose keys are distinct never matters. */
  lemma {:induction false} ReorderingDoesNotMatter(c: Config, xs: seq<Line>, ys: seq<Line>)
    requires multiset(xs) == multiset(ys) && NoBad(xs)
    requires forall k :: |ValuesFor(xs, k)| <= 1
    ensures Load(c, xs) == Load(c, ys)
  {
    assert forall y | y in ys :: y in multiset(ys) && y in multiset(xs) && y in xs;
    assert NoBad(ys) by {
      assert forall i | 0 <= i < |ys| :: ys[i] in ys;
    }
    forall k
      ensures ValuesFor(xs, k) == ValuesFor(ys, k)
    {
      ValuesOfPermutation(xs, ys, k);
      SmallPermutation(ValuesFor(xs, k), ValuesFor(ys, k));
    }
    SameValuesSameConfig(c, xs, ys);
  }

  lemma {:induction false} SmallPermutation(a: seq<string>, b: seq<string>)
    requires multiset(a) == multiset(b) && |a| <= 1
    ensures a == b
  {
    assert |multiset(a)| == |multiset(b)|;
    if |a| == 1 {
      assert a[0] in multiset(b) && b[0] in multiset(a);
    }
  }

  // ---- printing and reading back ------------------------------------------

  const KEYS: seq<Key> := [Port, ListenAddress, LogVerbosity, LogSinks, Threads, ApiKey, Vip,
                           UseSsl, SslKeyFile, SslCertChainFile, SslDhFile]

  function ValueText(c: Config, k: Key): (s: string) {
    match Field(c, k)
    case Num(n) => FromNumber(n)
    case Text(s) => s
    case Flag(b) => if b then "yes" else "no"
  }

  function PrintLine(c: Config, k: Key): (s: string) {
    Name(k) + ": " + ValueText(c, k)
  }

  function PrintLines(c: Config, ks: seq<Key>): (ls: seq<string>)
    ensures |ls| == |ks|
    ensures forall i | 0 <= i < |ks| :: ls[i] == PrintLine(c, ks[i])
  {
    if ks == [] then [] else [PrintLine(c, ks[0])] + PrintLines(c, ks[1..])
  }

  /** The configuration as the text of a file, one newline-terminated line per key. */
  function Print(c: Config): (content: string) {
    Join(PrintLines(c, KEYS) + [""], "\n")
  }

  /** All text fields are trimmed and without a newline. */
  predicate Printable(c: Config) {
    forall k :: Field(c, k).Text? ==> Trimmed(Field(c, k).s) && '\n' !in Field(c, k).s
  }

  lemma {:induction false} NameIsKey(k: Key)
    ensures Name(k) != "" && KeyOf(Name(k)) == Some(k)
  {
  }

  lemma {:induction false} NameLetters(k: Key)
    ensures forall c | c in Name(k) :: 'a' <= c <= 'z' || c == '_'
  {
  }

  lemma {:induction false} NameFacts(k: Key)
    ensures Name(k) != "" && KeyOf(Name(k)) == Some(k)
    ensures forall c | c in Name(k) :: 'a' <= c <= 'z' || c == '_'
  {
    hide Name, KeyOf;
    NameIsKey(k);
    NameLetters(k);
  }

  lemma {:induction false} LowerName(k: Key)
    ensures ToLower(Name(k)) == Name(k)
  {
    NameFacts(k);
    assert forall i | 0 <= i < |Name(k)| :: Name(k)[i] in Name(k);
  }

  lemma {:induction false} SplitAtColon(name: string, tail: string)
    requires ':' !in name
    ensures Split(name + ":" + tail, ":", 2) == [name, tail]
  {
    var line := name + ":" + tail;
    FreeOfChar(name, ':');
    FindAfterFree(name, ":", tail);
    assert line[..|name|] == name && line[|name| + 1..] == tail;
    assert Cut(line, ":", 2) == [name] + Cut(tail, ":", 1);
  }

  /** A line `name:tail` whose lower-cased name is a key sets that key, whatever the tail contains. */
  lemma {:induction false} KeyLineIsSetting(name: string, k: Key, tail: string, raw: string)
    requires name != "" && name[0] != '#' && ':' !in name && KeyOf(ToLower(name)) == Some(k)
    requires Trim(raw) == name + ":" + tail
    ensures Classify(raw) == Setting(k, Trim(tail))
  {
    hide Trim, Split, ToLower, KeyOf;
    assert Trim(raw)[0] == name[0];
    assert !StartsWith("#", Trim(raw));
    SplitAtColon(name, tail);
  }

  lemma {:induction false} PaddedLine(name: string, v: string) returns (tail: string)
    requires name != "" && !IsSpace(name[0]) && Trimmed(v)
    ensures Trim(name + ": " + v) == name + ":" + tail && Trim(tail) == v
  {
    if v == "" {
      tail := "";
      assert name + ": " + v == "" + (name + ":") + " ";
      TrimUnique("", name + ":", " ");
    } else {
      tail := " " + v;
      SpacedValue(name, v);
    }
  }

  lemma {:induction false} SpacedValue(name: string, v: string)
    requires name != "" && !IsSpace(name[0]) && Trimmed(v) && v != ""
    ensures Trim(name + ": " + v) == name + ":" + (" " + v) && Trim(" " + v) == v
  {
    var line := name + ":" + (" " + v);
    assert name + ": " + v == line;
    assert line[0] == name[0] && line[|line| - 1] == v[|v| - 1];
    TrimmedIsFixed(line);
    assert " " + v == " " + v + "";
    TrimUnique(" ", v, "");
  }

  lemma {:induction false} TrimmedIsFixed(s: string)
    requires Trimmed(s)
    ensures Trim(s) == s
  {
    assert s == "" + s + "";
    TrimUnique("", s, "");
  }

  /** A printed line is read back as the assignment it was printed from, colons in the value included. */
  lemma {:induction false} PrintedLineIsSetting(k: Key, v: string)
    requires Trimmed(v)
    ensures Classify(Name(k) + ": " + v) == Setting(k, v)
  {
    NameFacts(k);
    LowerName(k);
    assert Name(k)[0] in Name(k);
    var tail := PaddedLine(Name(k), v);
    KeyLineIsSetting(Name(k), k, tail, Name(k) + ": " + v);
  }

  lemma {:induction false} ValueTextTrimmed(c: Config, k: Key)
    requires Printable(c)
    ensures Trimmed(ValueText(c, k)) && '\n' !in ValueText(c, k)
  {
    match Field(c, k)
    case Num(n) =>
      var s := FromNumber(n);
      assert forall i | 0 <= i < |s| :: s[i] == '-' || IsDigit(s[i]);
    case Text(s) =>
    case Flag(b) =>
  }

  /** The assignments the printed lines stand for. */
  function Settings(c: Config, ks: seq<Key>): (ls: seq<Line>)
    ensures |ls| == |ks|
    ensures forall i | 0 <= i < |ks| :: ls[i] == Setting(ks[i], ValueText(c, ks[i]))
  {
    if ks == [] then [] else [Setting(ks[0], ValueText(c, ks[0]))] + Settings(c, ks[1..])
  }

  lemma {:induction false} ClassifyPrinted(c: Config, ks: seq<Key>)
    requires Printable(c)
    ensures ClassifyAll(PrintLines(c, ks)) == Settings(c, ks)
  {
    forall i | 0 <= i < |ks|
      ensures Classify(PrintLine(c, ks[i])) == Setting(ks[i], ValueText(c, ks[i]))
    {
      ClassifyPrintLine(c, ks[i]);
    }
  }

  lemma {:induction false} ClassifyPrintLine(c: Config, k: Key)
    requires Printable(c)
    ensures Classify(PrintLine(c, k)) == Setting(k, ValueText(c, k))
  {
    ValueTextTrimmed(c, k);
    PrintedLineIsSetting(k, ValueText(c, k));
  }

  lemma {:induction false} ValuesForPrinted(c: Config, ks: seq<Key>, k: Key)
    requires forall i, j | 0 <= i < j < |ks| :: ks[i] != ks[j]
    ensures NoBad(Settings(c, ks))
    ensures ValuesFor(Settings(c, ks), k) == if k in ks then [ValueText(c, k)] else []
  {
    hide ValueText, ValuesFor, Settings;
    assert NoBad(Settings(c, ks));
    if ks == [] {
      NoValues(k);
    } else {
      ValuesForPrinted(c, ks[1..], k);
      FirstPrinted(c, ks, k);
      assert k in ks <==> k == ks[0] || k in ks[1..];
    }
  }

  lemma {:induction false} NoValues(k: Key)
    ensures ValuesFor([], k) == []
  {
  }

  lemma {:induction false} FirstPrinted(c: Config, ks: seq<Key>, k: Key)
    requires ks != []
    ensures ValuesFor(Settings(c, ks), k) ==
            (if k == ks[0] then [ValueText(c, k)] else []) + ValuesFor(Settings(c, ks[1..]), k)
  {
    hide ValueText;
    assert Settings(c, ks)[1..] == Settings(c, ks[1..]);
  }

  lemma {:induction false} LinesOfPrinted(c: Config)
    requires Printable(c)
    ensures Lines(Print(c)) == PrintLines(c, KEYS)
  {
    var ls := PrintLines(c, KEYS);
    var ps := ls + [""];
    forall i | 0 <= i < |ps|
      ensures '\n' !in ps[i]
    {
      if i < |ls| {
        NameFacts(KEYS[i]);
        ValueTextTrimmed(c, KEYS[i]);
      }
    }
    SplitJoinChar(ps, '\n');
    assert ps[..|ps| - 1] == ls;
  }

  lemma {:induction false} KeysComplete(k: Key)
    ensures k in KEYS
  {
    assert KEYS[0] == Port && KEYS[1] == ListenAddress && KEYS[2] == LogVerbosity && KEYS[3] == LogSinks;
    assert KEYS[4] == Threads && KEYS[5] == ApiKey && KEYS[6] == Vip && KEYS[7] == UseSsl;
    assert KEYS[8] == SslKeyFile && KEYS[9] == SslCertChainFile && KEYS[10] == SslDhFile;
  }

  function Rank(k: Key): (r: nat) {
    match k
    case Port => 0
    case ListenAddress => 1
    case LogVerbosity => 2
    case LogSinks => 3
    case Threads => 4
    case ApiKey => 5
    case Vip => 6
    case UseSsl => 7
    case SslKeyFile => 8
    case SslCertChainFile => 9
    case SslDhFile => 10
  }

  lemma {:induction false} KeysDistinct()
    ensures forall i, j | 0 <= i < j < |KEYS| :: KEYS[i] != KEYS[j]
  {
    assert forall i | 0 <= i < |KEYS| :: Rank(KEYS[i]) == i;
  }

  lemma {:induction false} TruthyTexts()
    ensures Truthy("yes") && !Truthy("no")
  {
    assert ToLower("yes") == "yes";
    assert |ToLower("no")| == 2;
  }

  /**
   * Opening a printed configuration restores it, values with colons included; over an
   * already loaded manager the SSL switch can only stay on.
   */
  lemma {:induction false} PrintThenLoad(start: Config, c: Config)
    requires Printable(c)
    ensures Load(start, ClassifyAll(Lines(Print(c)))) == Outcome(c.(useSsl := c.useSsl || start.useSsl), true)
    ensures start == DEFAULTS ==> Load(start, ClassifyAll(Lines(Print(c)))) == Outcome(c, true)
  {
    LinesOfPrinted(c);
    ClassifyPrinted(c, KEYS);
    LoadSettings(start, c);
  }

  lemma {:induction false} LoadSettings(start: Config, c: Config)
    ensures Load(start, Settings(c, KEYS)) == Outcome(c.(useSsl := c.useSsl || start.useSsl), true)
  {
    var lines := Settings(c, KEYS);
    var want := c.(useSsl := c.useSsl || start.useSsl);
    KeysDistinct();
    ValuesForPrinted(c, KEYS, Port);
    forall k
      ensures Load(start, lines).valid
      ensures Field(Load(start, lines).config, k) == Field(want, k)
    {
      ValuesForPrinted(c, KEYS, k);
      KeysComplete(k);
      LastLineWins(start, lines, k);
      SettledPrinted(start, c, k);
    }
    LastLineWins(start, lines, Port);
    ConfigFromFields(Load(start, lines).config, want);
  }

  lemma {:induction false} SettledPrinted(start: Config, c: Config, k: Key)
    ensures Settled(Field(start, k), k, [ValueText(c, k)])
         == Field(c.(useSsl := c.useSsl || start.useSsl), k)
  {
    TruthyTexts();
    AtoiOfPrinted(c.port);
    AtoiOfPrinted(c.threads);
    assert [ValueText(c, k)][0] == ValueText(c, k);
  }
}
