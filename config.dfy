/**
 * braulio/config.py: the defaults of the `[braulio]` section, the reading of its
 * boolean options, and the parsing of its `files` option into a list of paths.
 */
module Configuration {
  import opened Wrappers
  import opened Text

  /** The options of the `[braulio]` section, as the strings ConfigParser holds. */
  datatype Section = Section(commit: string, tag: string, confirm: string, files: string)

  /** `DEFAULT_CONFIG`: commit and tag on, no confirmation, no files. */
  const DefaultSection := Section("True", "True", "False", "")

  /**
   * The section once the `[braulio]` options of setup.cfg, given by name, are read
   * over the defaults: an option the file sets replaces the default, the others stay.
   */
  function Merged(file: map<string, string>): (s: Section)
    ensures s.commit == (if "commit" in file then file["commit"] else DefaultSection.commit)
    ensures s.tag == (if "tag" in file then file["tag"] else DefaultSection.tag)
    ensures s.confirm == (if "confirm" in file then file["confirm"] else DefaultSection.confirm)
    ensures s.files == (if "files" in file then file["files"] else DefaultSection.files)
  {
    var d := DefaultSection;
    Section(
      if "commit" in file then file["commit"] else d.commit,
      if "tag" in file then file["tag"] else d.tag,
      if "confirm" in file then file["confirm"] else d.confirm,
      if "files" in file then file["files"] else d.files)
  }

  /** ASCII `str.lower`. */
  function Lower(s: string): (r: string)
    ensures |r| == |s|
    ensures forall i :: 0 <= i < |s| ==> r[i] == (if 'A' <= s[i] <= 'Z' then (s[i] as int + 32) as char else s[i])
  {
    seq(|s|, i requires 0 <= i < |s| => if 'A' <= s[i] <= 'Z' then (s[i] as int + 32) as char else s[i])
  }

  /** `ValueError: Not a boolean: <value>` */
  datatype ValueError = NotABoolean(value: string)

  /**
   * `ConfigParser.getboolean`: `1`, `yes`, `true`, `on` are true and `0`, `no`,
   * `false`, `off` are false, in any case; anything else is an error.
   */
  function ReadBoolean(value: string): (r: Result<bool, ValueError>)
    ensures r == Ok(true) <==> Lower(value) in ["1", "yes", "true", "on"]
    ensures r == Ok(false) <==> Lower(value) in ["0", "no", "false", "off"]
    ensures r.Err? ==> r.error == NotABoolean(value)
  {
    var v := Lower(value);
    if v in ["1", "yes", "true", "on"] then Ok(true)
    else if v in ["0", "no", "false", "off"] then Ok(false)
    else Err(NotABoolean(value))
  }

  /** The three boolean options can be read. */
  predicate Readable(section: Section) {
    ReadBoolean(section.commit).Ok? && ReadBoolean(section.tag).Ok? && ReadBoolean(section.confirm).Ok?
  }

  /**
   * The `files` option: nothing when it is blank; otherwise, with newlines removed,
   * the comma-separated pieces, each stripped, in order.
   */
  function ParseFiles(value: string): (files: seq<string>)
    ensures files == [] <==> Strip(value) == ""
    ensures Strip(value) != "" ==> |files| == Count(Remove(Strip(value), '\n'), ',') + 1
    ensures forall i :: 0 <= i < |files| ==> '\n' !in files[i] && ',' !in files[i]
    ensures forall i :: 0 <= i < |files| ==> files[i] == [] || (!IsSpace(files[i][0]) && !IsSpace(files[i][|files[i]| - 1]))
    ensures Strip(value) != "" ==> |files| == |Split(Remove(Strip(value), '\n'), ',')|
    ensures Strip(value) != "" ==>
      forall i :: 0 <= i < |files| ==> files[i] == Strip(Split(Remove(Strip(value), '\n'), ',')[i])
  {
    var stripped := Strip(value);
    if stripped == "" then []
    else
      var joined := Remove(stripped, '\n');
      SplitInside(joined, ',', '\n');
      StripPieces(Split(joined, ','))
  }

  /** Each piece stripped: what is absent from the pieces stays absent, and no piece keeps outer whitespace. */
  function StripPieces(pieces: seq<string>): (r: seq<string>)
    requires forall i :: 0 <= i < |pieces| ==> '\n' !in pieces[i] && ',' !in pieces[i]
    ensures |r| == |pieces|
    ensures forall i :: 0 <= i < |r| ==> r[i] == Strip(pieces[i])
    ensures forall i :: 0 <= i < |r| ==> '\n' !in r[i] && ',' !in r[i]
    ensures forall i :: 0 <= i < |r| ==> r[i] == [] || (!IsSpace(r[i][0]) && !IsSpace(r[i][|r[i]| - 1]))
  {
    var r := seq(|pieces|, i requires 0 <= i < |pieces| => Strip(pieces[i]));
    assert forall i :: 0 <= i < |r| ==> '\n' !in r[i] && ',' !in r[i] by {
      forall i | 0 <= i < |r| ensures '\n' !in r[i] && ',' !in r[i] {
        StripInside(pieces[i], '\n');
        StripInside(pieces[i], ',');
      }
    }
    r
  }

  /** Paths joined with commas, without blanks or line breaks, read back as the same paths. */
  lemma {:induction false} ParseJoinedFiles(files: seq<string>)
    requires |files| >= 1 && files != [""]
    requires forall i :: 0 <= i < |files| ==> '\n' !in files[i] && ',' !in files[i]
    requires forall i :: 0 <= i < |files| ==> files[i] == [] || (!IsSpace(files[i][0]) && !IsSpace(files[i][|files[i]| - 1]))
    ensures ParseFiles(Join(files, ",")) == files
  {
    var joined := Join(files, ",");
    JoinEnds(files);
    StripTrimmed(joined);
    JoinHasNo(files, '\n');
    RemoveAbsent(joined, '\n');
    SplitJoin(files, ',');
    StrippedPieces(files);
  }

  /** Pieces that are their own strip come back from `StripPieces` unchanged. */
  lemma StrippedPieces(pieces: seq<string>)
    requires forall i :: 0 <= i < |pieces| ==> '\n' !in pieces[i] && ',' !in pieces[i]
    requires forall i :: 0 <= i < |pieces| ==> pieces[i] == [] || (!IsSpace(pieces[i][0]) && !IsSpace(pieces[i][|pieces[i]| - 1]))
    ensures StripPieces(pieces) == pieces
  {
    forall i | 0 <= i < |pieces| ensures Strip(pieces[i]) == pieces[i] {
      StripTrimmed(pieces[i]);
    }
  }

  /** A comma-joined list starts with the first piece's text and ends with the last's. */
  lemma {:induction false} JoinEnds(files: seq<string>)
    requires |files| >= 1 && files != [""]
    requires forall i :: 0 <= i < |files| ==> files[i] == [] || (!IsSpace(files[i][0]) && !IsSpace(files[i][|files[i]| - 1]))
    ensures var j := Join(files, ","); j != [] && !IsSpace(j[0]) && !IsSpace(j[|j| - 1])
  {
    if |files| > 1 {
      var rest := files[1..];
      var tail := Join(rest, ",");
      assert Join(files, ",") == files[0] + "," + tail;
      if rest == [""] {
        assert tail == "";
      } else {
        JoinEnds(rest);
      }
    }
  }

  /** A character in no piece and not the separator is not in the joined text. */
  lemma {:induction false} JoinHasNo(files: seq<string>, c: char)
    requires c != ','
    requires forall i :: 0 <= i < |files| ==> c !in files[i]
    ensures c !in Join(files, ",")
  {
    if |files| > 1 {
      JoinHasNo(files[1..], c);
    }
  }

  /** A blank option gives no paths. */
  lemma BlankFilesExamples()
    ensures ParseFiles("") == []
    ensures ParseFiles(" ") == []
  {
    assert LeadingSpaces(" ") == 1;
  }

  /** The pieces of two padded paths, once the option is stripped and split at the comma. */
  lemma PaddedPairPieces(a: string, b: string)
    requires a != [] && !IsSpace(a[0]) && !IsSpace(a[|a| - 1])
    requires b != [] && !IsSpace(b[0]) && !IsSpace(b[|b| - 1])
    requires '\n' !in a && ',' !in a && '\n' !in b && ',' !in b
    ensures Split(Remove(Strip(" " + a + ", " + b + " "), '\n'), ',') == [a, " " + b]
  {
    var t := a + [','] + (" " + b);
    StripPaddedPair(a, b);
    RemoveAbsent(t, '\n');
    SplitPair(a, " " + b, ',');
  }

  /** Two padded paths strip to the two paths around the comma. */
  lemma StripPaddedPair(a: string, b: string)
    requires a != [] && !IsSpace(a[0])
    requires b != [] && !IsSpace(b[|b| - 1])
    ensures Strip(" " + a + ", " + b + " ") == a + [','] + (" " + b)
  {
    var t := a + [','] + (" " + b);
    assert " " + a + ", " + b + " " == " " + t + " ";
    StripPadded(t);
  }

  /** Two pieces stripped are the two strips. */
  lemma StripPiecesPair(a: string, b: string)
    requires '\n' !in a && ',' !in a && '\n' !in b && ',' !in b
    ensures StripPieces([a, b]) == [Strip(a), Strip(b)]
  {
  }

  /** A path on its own, as `files = folder/file.py`, is the one path. */
  lemma OneFile(path: string)
    requires path != [] && !IsSpace(path[0]) && !IsSpace(path[|path| - 1])
    requires '\n' !in path && ',' !in path
    ensures ParseFiles(path) == [path]
  {
    ParseJoinedFiles([path]);
  }

  /**
   * Two paths with blanks around the option and after the comma, as in
   * `files = folder/file.py, file.py `, are the two paths without the blanks.
   */
  lemma TwoFilesPadded(a: string, b: string)
    requires a != [] && !IsSpace(a[0]) && !IsSpace(a[|a| - 1])
    requires b != [] && !IsSpace(b[0]) && !IsSpace(b[|b| - 1])
    requires '\n' !in a && ',' !in a && '\n' !in b && ',' !in b
    ensures ParseFiles(" " + a + ", " + b + " ") == [a, b]
  {
    var x := " " + b;
    PaddedPairPieces(a, b);
    StripPiecesPair(a, x);
    StripTrimmed(a);
    StripPadded(b);
  }

  /**
   * Three paths over three lines, with blanks around the option and the commas, as in
   * `files =  folder/file.py , <newline>folder/module.py ,<newline>   file.py  `, are the
   * three paths: the line breaks go first, then each piece is stripped.
   */
  lemma ThreeFilesOverLines(a: string, b: string, c: string)
    requires a != [] && !IsSpace(a[0]) && !IsSpace(a[|a| - 1])
    requires b != [] && !IsSpace(b[0]) && !IsSpace(b[|b| - 1])
    requires c != [] && !IsSpace(c[0]) && !IsSpace(c[|c| - 1])
    requires '\n' !in a && ',' !in a && '\n' !in b && ',' !in b && '\n' !in c && ',' !in c
    ensures ParseFiles(" " + a + " , \n" + b + " ,\n   " + c + "  ") == [a, b, c]
  {
    var value := " " + a + " , \n" + b + " ,\n   " + c + "  ";
    var pieces := [a + " ", " " + b + " ", "   " + c];
    assert Strip(value) != "" && Split(Remove(Strip(value), '\n'), ',') == pieces by {
      ThreeLinesJoined(a, b, c);
      SplitThree(pieces[0], pieces[1], pieces[2], ',');
    }
    var files := ParseFiles(value);
    assert |files| == 3 && files[0] == a && files[1] == b && files[2] == c by {
      assert |files| == 3 && files[0] == Strip(pieces[0]) && files[1] == Strip(pieces[1]) && files[2] == Strip(pieces[2]);
      StripTrailingBlank(a);
      StripPadded(b);
      StripLeadingBlanks(c);
    }
    ThreeItems(files, a, b, c);
  }

  /** A sequence of three items is the display of those items. */
  lemma ThreeItems(files: seq<string>, a: string, b: string, c: string)
    requires |files| == 3 && files[0] == a && files[1] == b && files[2] == c
    ensures files == [a, b, c]
  {
  }

  /** The value of `ThreeFilesOverLines` stripped and rid of its line breaks: three pieces between two commas. */
  lemma ThreeLinesJoined(a: string, b: string, c: string)
    requires a != [] && !IsSpace(a[0])
    requires c != [] && !IsSpace(c[|c| - 1])
    requires '\n' !in a && '\n' !in b && '\n' !in c
    ensures Remove(Strip(" " + a + " , \n" + b + " ,\n   " + c + "  "), '\n') == (a + " ") + [','] + ((" " + b + " ") + [','] + ("   " + c))
  {
    var t := a + " , \n" + b + " ,\n   " + c;
    assert Strip(" " + a + " , \n" + b + " ,\n   " + c + "  ") == t by {
      assert " " + a + " , \n" + b + " ,\n   " + c + "  " == " " + t + "  ";
      assert t[0] == a[0] && t[|t| - 1] == c[|c| - 1];
      StripAround(" ", t, "  ");
    }
    ThreeLinesRemoved(a, b, c);
  }

  /** Removing the two line breaks of `ThreeLinesJoined` leaves three pieces between two commas. */
  lemma ThreeLinesRemoved(a: string, b: string, c: string)
    requires '\n' !in a && '\n' !in b && '\n' !in c
    ensures Remove(a + " , \n" + b + " ,\n   " + c, '\n') == (a + " ") + [','] + ((" " + b + " ") + [','] + ("   " + c))
  {
    var p, q, r := a + " , ", b + " ,", "   " + c;
    assert Remove(a + " , \n" + b + " ,\n   " + c, '\n') == p + (q + r) by {
      assert a + " , \n" + b + " ,\n   " + c == p + ['\n'] + (q + ['\n'] + r);
      RemoveTwo(p, q, r, '\n');
    }
    CommaPieces(a, b, c);
  }

  /** The text `ThreeLinesRemoved` leaves, regrouped around its two commas. */
  lemma CommaPieces(a: string, b: string, c: string)
    ensures a + " , " + (b + " ," + ("   " + c)) == (a + " ") + [','] + ((" " + b + " ") + [','] + ("   " + c))
  {
    var q, r := b + " ,", "   " + c;
    assert a + " , " + (q + r) == (a + " ") + [','] + (" " + (q + r));
    assert " " + (q + r) == (" " + b + " ") + [','] + ("   " + c);
  }

  /** A path followed by a blank, stripped, is the path. */
  lemma StripTrailingBlank(t: string)
    requires t != [] && !IsSpace(t[0]) && !IsSpace(t[|t| - 1])
    ensures Strip(t + " ") == t
  {
    assert t + " " == "" + t + " ";
    StripAround("", t, " ");
  }

  /** A path after three blanks, stripped, is the path. */
  lemma StripLeadingBlanks(t: string)
    requires t != [] && !IsSpace(t[0]) && !IsSpace(t[|t| - 1])
    ensures Strip("   " + t) == t
  {
    assert "   " + t == "   " + t + "";
    StripAround("   ", t, "");
  }

  /**
   * The settings `Config.__init__` stores: the three booleans, and the `files` paths.
   * The properties `commit`, `tag`, `confirm` and `files` return these fields as they are.
   */
  class Config {
    var commit: bool
    var tag: bool
    var confirm: bool
    var files: seq<string>

    /** `Config()` on the merged section. */
    constructor(section: Section)
      requires Readable(section)
      ensures commit == ReadBoolean(section.commit).value
      ensures tag == ReadBoolean(section.tag).value
      ensures confirm == ReadBoolean(section.confirm).value
      ensures files == ParseFiles(section.files)
    {
      commit := ReadBoolean(section.commit).value;
      tag := ReadBoolean(section.tag).value;
      confirm := ReadBoolean(section.confirm).value;
      var filesValue := Strip(section.files);
      if filesValue == "" {
        files := [];
      } else {
        if '\n' in filesValue {
          filesValue := Remove(filesValue, '\n');
        } else {
          RemoveAbsent(filesValue, '\n');
        }
        var filePathList := Split(filesValue, ',');
        var paths := seq(|filePathList|, i requires 0 <= i < |filePathList| => Strip(filePathList[i]));
        SplitInside(filesValue, ',', '\n');
        assert paths == StripPieces(filePathList);
        files := paths;
      }
    }
  }

  /** Without setup.cfg, or with one that sets nothing, commits and tags are made without confirmation. */
  lemma DefaultSettings()
    ensures Readable(Merged(map[]))
    ensures ReadBoolean(Merged(map[]).commit) == Ok(true)
    ensures ReadBoolean(Merged(map[]).tag) == Ok(true)
    ensures ReadBoolean(Merged(map[]).confirm) == Ok(false)
    ensures ParseFiles(Merged(map[]).files) == []
  {
    assert Lower("True") == "true";
    assert Lower("False") == "false";
  }

  /** An option setup.cfg sets overrides its default; the others keep theirs. */
  lemma FileOverridesDefault()
    ensures ReadBoolean(Merged(map["tag" := "False"]).tag) == Ok(false)
    ensures ReadBoolean(Merged(map["tag" := "False"]).commit) == Ok(true)
    ensures ReadBoolean(Merged(map["confirm" := "True"]).confirm) == Ok(true)
  {
    assert Lower("True") == "true";
    assert Lower("False") == "false";
  }
}
