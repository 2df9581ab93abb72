/** `load_site_data` of build.py: slicing the YAML front matter out of the data file and checking that it
    loads to a mapping. Reading the file and the YAML parser itself are outside the model; the parser is
    a parameter. */
module FrontMatter {
  import opened Wrappers
  import opened Strings
  import opened SiteData

  /** The ways `load_site_data` stops the build (each prints a message and exits with status 1). */
  datatype LoadError = FileNotFound | NoOpeningDelimiter | NoClosingDelimiter | YamlError | NotAMapping

  /** A line that closes the front matter: `line.strip() == '---'`. */
  predicate IsDelimiter(line: string)
  {
    Trim(line, PyIsSpace) == "---"
  }

  function Lines(content: string): seq<string>
  {
    Split(content, '\n')
  }

  /** The first line at or after `from` that is a delimiter. */
  function ClosingLine(lines: seq<string>, from: nat): (e: Option<nat>)
    requires from <= |lines|
    ensures e.Some? ==> from <= e.value < |lines| && IsDelimiter(lines[e.value]) &&
                        forall k :: from <= k < e.value ==> !IsDelimiter(lines[k])
    ensures e.None? ==> forall k :: from <= k < |lines| ==> !IsDelimiter(lines[k])
    decreases |lines| - from
  {
    if from == |lines| then None
    else if IsDelimiter(lines[from]) then Some(from)
    else ClosingLine(lines, from + 1)
  }

  /** The YAML text between the opening `---` and the first later delimiter line (build.py:72-91). It only
      succeeds on content that opens with `---`, and it fails only for want of one of the two delimiters. */
  function FrontMatterText(content: string): (r: Result<string, LoadError>)
    ensures r.Success? ==> |content| >= 3 && content[..3] == "---"
    ensures r.Failure? ==> r.error == NoOpeningDelimiter || r.error == NoClosingDelimiter
  {
    if |content| < 3 || content[..3] != "---" then Failure(NoOpeningDelimiter)
    else
      var lines := Lines(content);
      match ClosingLine(lines, 1)
      case None => Failure(NoClosingDelimiter)
      case Some(e) => Success(Join(lines[1..e], '\n'))
  }

  /** build.py:72-91 as written: a scan over `lines[1:]` that stops at the first delimiter. */
  method ExtractFrontMatter(content: string) returns (r: Result<string, LoadError>)
    ensures r == FrontMatterText(content)
  {
    if !(|content| >= 3 && content[..3] == "---") {
      return Failure(NoOpeningDelimiter);
    }
    var lines := Split(content, '\n');
    var endLine: Option<nat> := None;
    var i := 1;
    while i < |lines|
      invariant 1 <= i <= |lines|
      invariant ClosingLine(lines, 1) == ClosingLine(lines, i)
    {
      if Trim(lines[i], PyIsSpace) == "---" {
        endLine := Some(i);
        break;
      }
      i := i + 1;
    }
    if endLine.None? {
      return Failure(NoClosingDelimiter);
    }
    r := Success(Join(lines[1..endLine.value], '\n'));
  }

  /** Extraction fails exactly when the content does not start with `---` or no later line strips to
      `---`; otherwise the YAML text is the lines strictly between the opening line and the first
      delimiter line, joined by newlines, and none of those lines is a delimiter. */
  lemma FrontMatterSpec(content: string)
    ensures FrontMatterText(content) == Failure(NoOpeningDelimiter) <==> !(|content| >= 3 && content[..3] == "---")
    ensures FrontMatterText(content) == Failure(NoClosingDelimiter) <==>
            |content| >= 3 && content[..3] == "---" &&
            forall k :: 1 <= k < |Lines(content)| ==> !IsDelimiter(Lines(content)[k])
    ensures FrontMatterText(content).Success? ==>
            var lines := Lines(content);
            exists e :: 1 <= e < |lines| && IsDelimiter(lines[e]) &&
                        (forall k :: 1 <= k < e ==> !IsDelimiter(lines[k])) &&
                        FrontMatterText(content).value == Join(lines[1..e], '\n')
  {
  }

  /** The extracted text splits back into exactly the lines it was made of, and none of them is a delimiter. */
  lemma FrontMatterLines(content: string)
    requires FrontMatterText(content).Success?
    ensures var yaml := FrontMatterText(content).value;
            var lines := Lines(content);
            var e := ClosingLine(lines, 1).value;
            (e > 1 ==> Split(yaml, '\n') == lines[1..e]) &&
            (e == 1 ==> yaml == "") &&
            forall l :: l in Split(yaml, '\n') ==> !IsDelimiter(l)
  {
    var lines := Lines(content);
    var e := ClosingLine(lines, 1).value;
    var body := lines[1..e];
    if e > 1 {
      assert forall i :: 0 <= i < |body| ==> '\n' !in body[i] by {
        forall i | 0 <= i < |body| ensures '\n' !in body[i] {
          assert body[i] == lines[i + 1];
        }
      }
      SplitJoin(body, '\n');
      forall l | l in Split(FrontMatterText(content).value, '\n') ensures !IsDelimiter(l) {
        var i :| 0 <= i < |body| && body[i] == l;
        assert body[i] == lines[i + 1];
      }
    } else {
      assert Split("", '\n') == [""];
      assert !IsDelimiter("");
    }
  }

  /** `load_site_data`: a missing file, a missing delimiter, a YAML error or a non-mapping document is
      an error; otherwise the loaded mapping. `parse` stands for `yaml.safe_load` (`None` when it raises), whose
      mappings are Python dicts and so never repeat a key. */
  method LoadSiteData(file: Option<string>, parse: string -> Option<Value>) returns (r: Result<Value, LoadError>)
    requires forall s :: parse(s).Some? ==> WellFormed(parse(s).value)
    ensures file.None? ==> r == Failure(FileNotFound)
    ensures file.Some? && FrontMatterText(file.value).Failure? ==> r == Failure(FrontMatterText(file.value).error)
    ensures file.Some? && FrontMatterText(file.value).Success? ==>
            var loaded := parse(FrontMatterText(file.value).value);
            r == (if loaded.None? then Failure(YamlError)
                  else if !loaded.value.Dict? then Failure(NotAMapping)
                  else Success(loaded.value))
    ensures r.Success? ==> r.value.Dict? && WellFormed(r.value)
  {
    if file.None? {
      return Failure(FileNotFound);
    }
    var yaml := ExtractFrontMatter(file.value);
    if yaml.Failure? {
      return Failure(yaml.error);
    }
    var data := parse(yaml.value);
    if data.None? {
      return Failure(YamlError);
    }
    if !data.value.Dict? {
      return Failure(NotAMapping);
    }
    r := Success(data.value);
  }
}
