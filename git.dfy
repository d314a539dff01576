/**
 * braulio/git.py: the text of `git log` cut into commit blocks and each block parsed
 * into a commit, the `git tag` listing parsed into tags (newest first), the command
 * lines `Git.log` and `Git.tag` build, and the lazily filled tag cache.
 */
module GitLog {
  import opened Wrappers
  import opened Text
  import opened Versions

  // ---------------------------------------------------------------------------
  // Commit

  /** A commit as `Commit.__init__` leaves it; `None` stands for Python's `None`. */
  datatype Commit = Commit(
    text: string,
    hash: string,
    message: string,
    header: string,
    subject: string,
    body: Option<string>,
    action: Option<string>,
    scope: Option<string>)

  predicate IsWordRun(s: string) { forall i :: 0 <= i < |s| ==> IsWordChar(s[i]) }

  lemma WordRunSlice(s: string, a: nat, b: nat)
    requires a <= b <= |s| && forall k :: a <= k < b ==> IsWordChar(s[k])
    ensures IsWordRun(s[a..b])
  {
    var w := s[a..b];
    forall t | 0 <= t < |w| ensures IsWordChar(w[t]) {
      assert w[t] == s[a + t];
    }
  }

  /**
   * `task_pattern` (`!\w+:\w*`) tried at position `i`: the word after `!` and the
   * (possibly empty) word after `:`. A greedy word run cannot give back a character
   * to `:`, so the match is the maximal runs.
   */
  function TaskAt(s: string, i: nat): (r: Option<(string, string)>)
    ensures r.Some? ==> |r.value.0| >= 1 && IsWordRun(r.value.0) && IsWordRun(r.value.1)
    ensures r.Some? ==> OccursAt(s, "!" + r.value.0 + ":" + r.value.1, i)
    ensures r.Some? ==> var end := i + 2 + |r.value.0| + |r.value.1|; end == |s| || !IsWordChar(s[end])
  {
    if i < |s| && s[i] == '!' then
      var j := RunEnd(s, i + 1, IsWordChar);
      if j > i + 1 && j < |s| && s[j] == ':' then
        var k := RunEnd(s, j + 1, IsWordChar);
        WordRunSlice(s, i + 1, j);
        WordRunSlice(s, j + 1, k);
        assert s[i..k] == "!" + s[i + 1..j] + ":" + s[j + 1..k];
        Some((s[i + 1..j], s[j + 1..k]))
      else None
    else None
  }

  /**
   * Wherever `!`, a word and `:` occur, `task_pattern` matches, and its action is that
   * word: `\w+` cannot run past the `:`.
   */
  lemma TaskAtComplete(s: string, i: nat, action: string)
    requires |action| >= 1 && IsWordRun(action) && OccursAt(s, "!" + action + ":", i)
    ensures TaskAt(s, i).Some? && TaskAt(s, i).value.0 == action
  {
    var p := "!" + action + ":";
    var e := i + 1 + |action|;
    assert s[i] == p[0] && s[e] == p[|p| - 1];
    assert forall k :: i + 1 <= k < e ==> s[k] == action[k - i - 1];
    assert s[i + 1..e] == action;
    var j := RunEnd(s, i + 1, IsWordChar);
    assert j == e by {
      assert !IsWordChar(s[e]);
    }
  }

  /** `re.search(task_pattern, line)`: the leftmost marker, as (action, scope text). */
  function SearchTask(line: string): Option<(string, string)> {
    match FirstMatch(line, 0, TaskAt)
    case Some((_, task)) => Some(task)
    case None => None
  }

  /** `text[:-2] if text[-2:] == '\n\n' else text[:-1]` */
  function StripEol(text: string): (r: string)
    ensures |text| >= 2 && text[|text| - 2..] == "\n\n" ==> r == text[..|text| - 2]
    ensures !(|text| >= 2 && text[|text| - 2..] == "\n\n") ==> r == text[..if |text| == 0 then 0 else |text| - 1]
  {
    if |text| >= 2 && text[|text| - 2..] == "\n\n" then text[..|text| - 2]
    else if |text| >= 1 then text[..|text| - 1]
    else text
  }

  function TextLines(text: string): seq<string> {
    Split(StripEol(text), '\n')
  }

  /** What `Commit.__init__` needs: a hash line, two header lines, a blank line and a message line. */
  predicate IsCommitText(text: string) {
    |TextLines(text)| >= 5
  }

  /** `[line[4:] for line in text_lines[4:]]`: the message lines without their indentation. */
  function MessageLines(text: string): (msg: seq<string>)
    requires IsCommitText(text)
    ensures |msg| == |TextLines(text)| - 4 >= 1
    ensures forall i :: 0 <= i < |msg| ==> '\n' !in msg[i]
  {
    var lines := TextLines(text);
    var msg := seq(|lines| - 4, i requires 0 <= i < |lines| - 4 => Drop(lines[i + 4], 4));
    assert forall i :: 0 <= i < |msg| ==> '\n' !in msg[i] by {
      forall i | 0 <= i < |msg|
        ensures '\n' !in msg[i]
      {
        assert '\n' !in lines[i + 4];
        assert forall k :: 0 <= k < |msg[i]| ==> msg[i][k] == lines[i + 4][k + 4];
      }
    }
    msg
  }

  /**
   * `Commit(text)`: hash from the first line, message from the lines after the blank
   * one, a body only when a blank line follows the header and more follows it, and an
   * action and scope only when the body's last line carries a `!action:scope` marker.
   */
  function ParseCommit(text: string): (c: Commit)
    requires IsCommitText(text)
    ensures c.text == StripEol(text) && c.hash == Drop(TextLines(text)[0], 7)
    ensures c.subject == c.header && '\n' !in c.header
    ensures Split(c.message, '\n') == MessageLines(text) && c.header == MessageLines(text)[0]
    ensures c.body.Some? <==> |MessageLines(text)| > 2 && MessageLines(text)[1] == ""
    ensures c.body.Some? ==> c.message == c.header + "\n\n" + c.body.value
    ensures c.action.Some? ==> c.body.Some? && |c.action.value| >= 1 && IsWordRun(c.action.value)
    ensures c.action.None? ==> c.scope.None?
    ensures c.scope.Some? ==> c.scope.value != "" && IsWordRun(c.scope.value)
  {
    var lines := TextLines(text);
    var msg := MessageLines(text);
    var message := Join(msg, "\n");
    SplitJoin(msg, '\n');
    if |msg| > 2 && msg[1] == "" then
      var body := Join(msg[2..], "\n");
      BodyJoin(msg);
      var task := SearchTask(msg[|msg| - 1]);
      var action := if task.Some? then Some(task.value.0) else None;
      var scope := if task.Some? && task.value.1 != "" then Some(task.value.1) else None;
      Commit(StripEol(text), Drop(lines[0], 7), message, msg[0], msg[0], Some(body), action, scope)
    else
      Commit(StripEol(text), Drop(lines[0], 7), message, msg[0], msg[0], None, None, None)
  }

  /** A message whose second line is blank is its header, a blank line and the body. */
  lemma BodyJoin(msg: seq<string>)
    requires |msg| > 2 && msg[1] == ""
    ensures Join(msg, "\n") == msg[0] + "\n\n" + Join(msg[2..], "\n")
  {
    assert Join(msg[1..], "\n") == msg[1] + "\n" + Join(msg[1..][1..], "\n");
    assert msg[1..][1..] == msg[2..];
  }

  /** The action and scope are the leftmost marker of the message's last line, present only with a body. */
  lemma CommitTask(text: string)
    requires IsCommitText(text)
    ensures var c, msg := ParseCommit(text), MessageLines(text);
      var last := msg[|msg| - 1];
      (c.action.Some? <==> c.body.Some? && exists i: nat :: TaskAt(last, i).Some?)
      && (c.action.Some? ==> exists i: nat ::
            TaskAt(last, i) == Some((c.action.value, c.scope.GetOr("")))
            && forall j :: 0 <= j < i ==> TaskAt(last, j).None?)
  {
    var c, msg := ParseCommit(text), MessageLines(text);
    var last := msg[|msg| - 1];
    var r := FirstMatch(last, 0, TaskAt);
    if r.None? {
      forall i: nat ensures TaskAt(last, i).None? {
        if i > |last| {
          assert TaskAt(last, i).None?;
        }
      }
    } else {
      assert TaskAt(last, r.value.0) == Some(r.value.1);
    }
  }

  // ---------------------------------------------------------------------------
  // _extract_commit_texts

  /** The lookahead `(?=commit \w{40})` succeeds at `q`. */
  predicate HashAt(s: string, q: nat) {
    q + 47 <= |s| && s[q..q + 7] == "commit " && forall k :: q + 7 <= k < q + 47 ==> IsWordChar(s[k])
  }

  function HashMatch(s: string, q: nat): Option<()> {
    if HashAt(s, q) then Some(()) else None
  }

  /** `^commit ` (MULTILINE) at a line start `p`, with at least one character after it for `.+`. */
  predicate ChunkStartsAt(s: string, p: nat) {
    (p == 0 || (p <= |s| && s[p - 1] == '\n')) && p + 7 < |s| && s[p..p + 7] == "commit "
  }

  function ChunkStart(s: string, p: nat): Option<()> {
    if ChunkStartsAt(s, p) then Some(()) else None
  }

  /**
   * Where the chunk starting at `p` ends: the lazy `.+?` stops before the first
   * `commit <40 word characters>` at least one character after `commit `; without
   * one, `.+$` (DOTALL) runs to the end of the text.
   */
  function ChunkEnd(s: string, p: nat): (e: nat)
    requires p + 8 <= |s|
    ensures p + 8 <= e <= |s|
    ensures forall q :: p + 8 <= q < e ==> !HashAt(s, q)
    ensures e == |s| || HashAt(s, e)
  {
    var r := FirstMatch(s, p + 8, HashMatch);
    assert forall q :: HashMatch(s, q).None? ==> !HashAt(s, q);
    if r.Some? then r.value.0 else |s|
  }

  /** `re.findall(patter, s[i:])` over the rest of the text, in order. */
  function ExtractFrom(s: string, i: nat): (chunks: seq<string>)
    requires i <= |s|
    ensures forall k :: 0 <= k < |chunks| ==> |chunks[k]| > 7 && chunks[k][..7] == "commit "
    decreases |s| - i
  {
    match FirstMatch(s, i, ChunkStart)
    case None => []
    case Some((p, _)) =>
      var e := ChunkEnd(s, p);
      SlicePrefix(s, p, e, 7);
      [s[p..e]] + ExtractFrom(s, e)
  }

  lemma SlicePrefix(s: string, p: nat, e: nat, n: nat)
    requires p + n <= e <= |s|
    ensures s[p..e][..n] == s[p..p + n]
  {
  }

  /** `_extract_commit_texts(git_log_text)` */
  function ExtractCommitTexts(log: string): seq<string> {
    ExtractFrom(log, 0)
  }

  /**
   * One block of `git log` output: it starts with `commit ` and a 40-character hash,
   * ends with a newline, and contains no other `commit <hash>`.
   */
  predicate IsLogBlock(b: string) {
    48 <= |b| && HashAt(b, 0) && b[|b| - 1] == '\n' && forall q :: 0 < q < |b| ==> !HashAt(b, q)
  }

  lemma HashAtHasNoNewline(s: string, q: nat, k: nat)
    requires HashAt(s, q) && q <= k < q + 47
    ensures s[k] != '\n'
  {
    if k < q + 7 {
      assert s[k] == s[q..q + 7][k - q];
    }
  }

  lemma HashAtInside(pre: string, b: string, post: string, q: nat)
    requires |pre| <= q && q + 47 <= |pre| + |b|
    requires HashAt(pre + b + post, q)
    ensures HashAt(b, q - |pre|)
  {
    var s := pre + b + post;
    var d := q - |pre|;
    assert s[q..q + 7] == b[d..d + 7];
    forall k | d + 7 <= k < d + 47 ensures IsWordChar(b[k]) {
      assert b[k] == s[k + |pre|];
    }
  }

  lemma HashAtStart(pre: string, b: string, post: string)
    requires HashAt(b, 0)
    ensures HashAt(pre + b + post, |pre|)
  {
    var s := pre + b + post;
    assert s[|pre|..|pre| + 7] == b[..7];
    forall k | |pre| + 7 <= k < |pre| + 47 ensures IsWordChar(s[k]) {
      assert s[k] == b[k - |pre|];
    }
  }

  /** No hash line starts strictly inside a block that sits between `pre` and `post`. */
  lemma NoHashInsideBlock(pre: string, b: string, post: string, q: nat)
    requires IsLogBlock(b) && |pre| < q < |pre| + |b|
    ensures !HashAt(pre + b + post, q)
  {
    var s := pre + b + post;
    var p := |pre|;
    assert s[p + |b| - 1] == b[|b| - 1];
    if HashAt(s, q) {
      if q + 47 > p + |b| - 1 {
        HashAtHasNoNewline(s, q, p + |b| - 1);
      } else {
        HashAtInside(pre, b, post, q);
      }
    }
  }

  /** The chunk that starts at a block ends where the block does. */
  lemma BlockChunkEnd(pre: string, b: string, post: string)
    requires IsLogBlock(b) && (post == [] || HashAt(post, 0))
    ensures ChunkEnd(pre + b + post, |pre|) == |pre| + |b|
  {
    var s := pre + b + post;
    var p := |pre|;
    var e := ChunkEnd(s, p);
    if e < p + |b| {
      NoHashInsideBlock(pre, b, post, e);
    } else if e > p + |b| {
      assert post != [];
      HashAtStart(pre + b, post, []);
      assert (pre + b) + post + [] == s;
    }
  }

  /** A block after a line end is where the next chunk starts. */
  lemma BlockChunkStart(pre: string, b: string, post: string)
    requires IsLogBlock(b) && (pre == [] || pre[|pre| - 1] == '\n')
    ensures FirstMatch(pre + b + post, |pre|, ChunkStart) == Some((|pre|, ()))
  {
    var s := pre + b + post;
    assert s[|pre|..|pre| + 7] == b[..7];
    assert ChunkStartsAt(s, |pre|);
  }

  lemma ExtractStep(s: string, p: nat)
    requires p + 8 <= |s| && FirstMatch(s, p, ChunkStart) == Some((p, ()))
    ensures ExtractFrom(s, p) == [s[p..ChunkEnd(s, p)]] + ExtractFrom(s, ChunkEnd(s, p))
  {
  }

  lemma ExtractAtEnd(s: string)
    ensures ExtractFrom(s, |s|) == []
  {
    assert ChunkStart(s, |s|).None?;
  }

  /** One block, then whatever the rest of the text cuts into. */
  lemma ExtractBlock(pre: string, b: string, post: string)
    requires pre == [] || pre[|pre| - 1] == '\n'
    requires IsLogBlock(b) && (post == [] || HashAt(post, 0))
    ensures ExtractFrom(pre + b + post, |pre|) == [b] + ExtractFrom((pre + b) + post, |pre + b|)
  {
    var s := pre + b + post;
    BlockChunkStart(pre, b, post);
    BlockChunkEnd(pre, b, post);
    ExtractStep(s, |pre|);
    assert s[|pre|..|pre| + |b|] == b;
  }

  lemma ConcatFront(pre: string, blocks: seq<string>)
    requires blocks != []
    ensures pre + Concat(blocks) == pre + blocks[0] + Concat(blocks[1..])
  {
  }

  lemma ConcatStartsWithHash(blocks: seq<string>)
    requires blocks != [] && IsLogBlock(blocks[0])
    ensures HashAt(Concat(blocks), 0)
  {
    HashAtStart([], blocks[0], Concat(blocks[1..]));
    assert [] + blocks[0] + Concat(blocks[1..]) == Concat(blocks);
  }

  /** The inductive step: a block in front of blocks that cut correctly. */
  lemma ExtractBlocksStep(pre: string, b: string, rest: seq<string>)
    requires pre == [] || pre[|pre| - 1] == '\n'
    requires IsLogBlock(b) && (rest == [] || IsLogBlock(rest[0]))
    requires ExtractFrom((pre + b) + Concat(rest), |pre + b|) == rest
    ensures ExtractFrom(pre + Concat([b] + rest), |pre|) == [b] + rest
  {
    var post := Concat(rest);
    if rest != [] {
      ConcatStartsWithHash(rest);
    }
    ConcatFront(pre, [b] + rest);
    assert ([b] + rest)[1..] == rest;
    ExtractBlock(pre, b, post);
  }

  lemma {:induction false} ExtractBlocks(pre: string, blocks: seq<string>)
    requires pre == [] || pre[|pre| - 1] == '\n'
    requires forall k :: 0 <= k < |blocks| ==> IsLogBlock(blocks[k])
    ensures ExtractFrom(pre + Concat(blocks), |pre|) == blocks
    decreases |blocks|
  {
    if blocks == [] {
      assert pre + Concat(blocks) == pre;
      ExtractAtEnd(pre);
    } else {
      var b, rest := blocks[0], blocks[1..];
      assert forall k :: 0 <= k < |rest| ==> rest[k] == blocks[k + 1];
      assert blocks == [b] + rest;
      assert IsLogBlock(b) && (pre + b)[|pre + b| - 1] == b[|b| - 1];
      ExtractBlocks(pre + b, rest);
      ExtractBlocksStep(pre, b, rest);
    }
  }

  /** Cutting the concatenation of well-formed log blocks gives back the blocks. */
  lemma ExtractConcat(blocks: seq<string>)
    requires forall k :: 0 <= k < |blocks| ==> IsLogBlock(blocks[k])
    ensures ExtractCommitTexts(Concat(blocks)) == blocks
  {
    ExtractBlocks([], blocks);
    assert [] + Concat(blocks) == Concat(blocks);
  }

  // ---------------------------------------------------------------------------
  // one log entry, rendered and parsed back

  function Indented(msg: seq<string>): (r: seq<string>)
    ensures |r| == |msg| && forall i :: 0 <= i < |msg| ==> r[i] == "    " + msg[i]
  {
    seq(|msg|, i requires 0 <= i < |msg| => "    " + msg[i])
  }

  /**
   * The text `git log` prints for one commit: hash line, author and date lines, a blank
   * line, the message indented by four spaces, then one or two newlines.
   */
  function LogEntry(hash: string, author: string, date: string, msg: seq<string>, trailer: string): string {
    Join(["commit " + hash, author, date, ""] + Indented(msg), "\n") + trailer
  }

  /** A join ends with the last character of its last piece. */
  lemma {:induction false} JoinEnds(parts: seq<string>, sep: string)
    requires |parts| >= 1 && |parts[|parts| - 1]| >= 1
    ensures var j, last := Join(parts, sep), parts[|parts| - 1];
      |j| >= 1 && j[|j| - 1] == last[|last| - 1]
  {
    if |parts| > 1 {
      JoinEnds(parts[1..], sep);
    }
  }

  /** The lines of an entry, once the trailer is cut off, are its hash, header and indented message lines. */
  lemma EntryLines(hash: string, author: string, date: string, msg: seq<string>, trailer: string)
    requires |msg| >= 1
    requires '\n' !in hash && '\n' !in author && '\n' !in date
    requires forall i :: 0 <= i < |msg| ==> '\n' !in msg[i]
    requires trailer == "\n" || trailer == "\n\n"
    ensures TextLines(LogEntry(hash, author, date, msg, trailer)) == ["commit " + hash, author, date, ""] + Indented(msg)
  {
    var lines := ["commit " + hash, author, date, ""] + Indented(msg);
    var core := Join(lines, "\n");
    assert '\n' !in "commit " + hash;
    forall i | 0 <= i < |lines| ensures '\n' !in lines[i] {
      if i >= 4 {
        assert lines[i] == "    " + msg[i - 4];
      }
    }
    JoinEnds(lines, "\n");
    var last := lines[|lines| - 1];
    assert last[|last| - 1] != '\n';
    var t := core + trailer;
    assert t[..|core|] == core;
    if trailer == "\n" {
      assert t[|t| - 2] == core[|core| - 1];
    } else {
      assert t[|t| - 2..] == "\n\n";
    }
    assert StripEol(t) == core;
    SplitJoin(lines, '\n');
  }

  lemma EntryMessageLines(hash: string, author: string, date: string, msg: seq<string>, trailer: string)
    requires |msg| >= 1
    requires '\n' !in hash && '\n' !in author && '\n' !in date
    requires forall i :: 0 <= i < |msg| ==> '\n' !in msg[i]
    requires trailer == "\n" || trailer == "\n\n"
    ensures IsCommitText(LogEntry(hash, author, date, msg, trailer))
    ensures MessageLines(LogEntry(hash, author, date, msg, trailer)) == msg
    ensures Drop(TextLines(LogEntry(hash, author, date, msg, trailer))[0], 7) == hash
  {
    var text := LogEntry(hash, author, date, msg, trailer);
    EntryLines(hash, author, date, msg, trailer);
    var lines := TextLines(text);
    var m := MessageLines(text);
    forall i | 0 <= i < |msg| ensures m[i] == msg[i] {
      assert lines[i + 4] == "    " + msg[i];
      assert m[i] == Drop(lines[i + 4], 4);
      assert ("    " + msg[i])[4..] == msg[i];
    }
    assert lines[0][7..] == hash;
  }

  /** Parsing an entry gives back its hash and message; the body is what follows a blank second line. */
  lemma ParseLogEntry(hash: string, author: string, date: string, msg: seq<string>, trailer: string)
    requires |msg| >= 1
    requires '\n' !in hash && '\n' !in author && '\n' !in date
    requires forall i :: 0 <= i < |msg| ==> '\n' !in msg[i]
    requires trailer == "\n" || trailer == "\n\n"
    ensures IsCommitText(LogEntry(hash, author, date, msg, trailer))
    ensures var c := ParseCommit(LogEntry(hash, author, date, msg, trailer));
      c.hash == hash && c.message == Join(msg, "\n") && c.header == msg[0]
      && (c.body.Some? <==> |msg| > 2 && msg[1] == "")
      && (c.body.Some? ==> c.body.value == Join(msg[2..], "\n"))
  {
    EntryMessageLines(hash, author, date, msg, trailer);
    var c := ParseCommit(LogEntry(hash, author, date, msg, trailer));
    JoinSplit(c.message, '\n');
    if c.body.Some? {
      var j := Join(msg, "\n");
      assert j == msg[0] + "\n" + Join(msg[1..], "\n");
      assert Join(msg[1..], "\n") == "" + "\n" + Join(msg[2..], "\n") by {
        assert msg[1..][1..] == msg[2..];
      }
      var k := |msg[0] + "\n\n"|;
      assert j[k..] == Join(msg[2..], "\n");
      assert c.message[k..] == c.body.value;
    }
  }

  // ---------------------------------------------------------------------------
  // Git.log

  /** Python truthiness of an optional string argument. */
  predicate Truthy(o: Option<string>) { o.Some? && o.value != "" }

  /** The command `Git.log(_from, to)` runs: a range only with `_from`, ending at `to` or `HEAD`. */
  function LogCommand(from: Option<string>, to: Option<string>): (cmd: seq<string>)
    ensures |cmd| >= 2 && cmd[..2] == ["git", "log"]
    ensures |cmd| == 3 <==> Truthy(from)
    ensures !Truthy(from) ==> |cmd| == 2
    ensures Truthy(from) ==> cmd[2] == from.value + ".." + (if Truthy(to) then to.value else "HEAD")
  {
    var command := ["git", "log"];
    if Truthy(from) then
      var upTo := if Truthy(to) then to.value else "HEAD";
      command + [from.value + ".." + upTo]
    else command
  }

  /** The commits `Git.log` returns for the command's output. */
  function LogCommits(output: string): (commits: seq<Commit>)
    requires forall t :: t in ExtractCommitTexts(output) ==> IsCommitText(t)
    ensures |commits| == |ExtractCommitTexts(output)|
  {
    var texts := ExtractCommitTexts(output);
    seq(|texts|, i requires 0 <= i < |texts| => ParseCommit(texts[i]))
  }

  /** A log made of well-formed entries yields one commit per entry, in order. */
  lemma LogCommitsOfBlocks(blocks: seq<string>)
    requires forall k :: 0 <= k < |blocks| ==> IsLogBlock(blocks[k]) && IsCommitText(blocks[k])
    ensures forall t :: t in ExtractCommitTexts(Concat(blocks)) ==> IsCommitText(t)
    ensures var commits := LogCommits(Concat(blocks));
      |commits| == |blocks| && forall k :: 0 <= k < |blocks| ==> commits[k] == ParseCommit(blocks[k])
  {
    ExtractConcat(blocks);
  }

  // ---------------------------------------------------------------------------
  // Tag

  /** `v\d+[.]\d+[.]\d+` tried at position `i`; the greedy digit runs are maximal. */
  function VersionNameAt(s: string, i: nat): (r: Option<string>)
    ensures r.Some? ==> OccursAt(s, r.value, i) && |r.value| >= 6 && r.value[0] == 'v'
    ensures r.Some? ==> i + |r.value| == |s| || !IsDigit(s[i + |r.value|])
  {
    if i < |s| && s[i] == 'v' then
      var j1 := RunEnd(s, i + 1, IsDigit);
      if j1 > i + 1 && j1 < |s| && s[j1] == '.' then
        var j2 := RunEnd(s, j1 + 1, IsDigit);
        if j2 > j1 + 1 && j2 < |s| && s[j2] == '.' then
          var j3 := RunEnd(s, j2 + 1, IsDigit);
          if j3 > j2 + 1 then
            Some(s[i..j3])
          else None
        else None
      else None
    else None
  }

  /**
   * Wherever `v` and three digit runs joined by dots occur, the pattern matches there, and
   * its match begins with them: `\d+` cannot run past a dot, and the last run only grows.
   */
  lemma VersionNameAtComplete(s: string, i: nat, a: string, b: string, c: string)
    requires |a| >= 1 && |b| >= 1 && |c| >= 1 && AllDigits(a) && AllDigits(b) && AllDigits(c)
    requires OccursAt(s, "v" + a + "." + b + "." + c, i)
    ensures var r := VersionNameAt(s, i); var p := "v" + a + "." + b + "." + c;
      r.Some? && |p| <= |r.value| && r.value[..|p|] == p
  {
    var p := "v" + a + "." + b + "." + c;
    var e1 := i + 1 + |a|;
    var e2 := e1 + 1 + |b|;
    var e3 := e2 + 1 + |c|;
    VersionTextShape(s, i, a, b, c);
    PatternAt(s, i, e1, e2, e3);
    var r := VersionNameAt(s, i);
    assert r.value[..|p|] == s[i..i + |p|];
  }

  /** The characters of `v<a>.<b>.<c>` where it occurs. */
  lemma VersionTextShape(s: string, i: nat, a: string, b: string, c: string)
    requires |a| >= 1 && |b| >= 1 && |c| >= 1 && AllDigits(a) && AllDigits(b) && AllDigits(c)
    requires OccursAt(s, "v" + a + "." + b + "." + c, i)
    ensures var e1 := i + 1 + |a|; var e2 := e1 + 1 + |b|; var e3 := e2 + 1 + |c|;
      e3 <= |s| && s[i] == 'v' && s[e1] == '.' && s[e2] == '.'
      && (forall k :: i + 1 <= k < e1 ==> IsDigit(s[k]))
      && (forall k :: e1 + 1 <= k < e2 ==> IsDigit(s[k]))
      && (forall k :: e2 + 1 <= k < e3 ==> IsDigit(s[k]))
  {
    var p := "v" + a + "." + b + "." + c;
    var e1 := i + 1 + |a|;
    var e2 := e1 + 1 + |b|;
    var e3 := e2 + 1 + |c|;
    assert s[i..i + |p|] == p;
    assert p[0] == 'v' && p[1 + |a|] == '.' && p[2 + |a| + |b|] == '.';
    assert forall k :: i + 1 <= k < e1 ==> s[k] == a[k - i - 1];
    assert forall k :: e1 + 1 <= k < e2 ==> s[k] == b[k - e1 - 1];
    assert forall k :: e2 + 1 <= k < e3 ==> s[k] == c[k - e2 - 1];
  }

  /** `v`, digits up to `e1`, `.`, digits up to `e2`, `.` and digits up to `e3` match, at least up to `e3`. */
  lemma PatternAt(s: string, i: nat, e1: nat, e2: nat, e3: nat)
    requires i + 1 < e1 && e1 + 1 < e2 && e2 + 1 < e3 <= |s|
    requires s[i] == 'v' && s[e1] == '.' && s[e2] == '.'
    requires forall k :: i + 1 <= k < e1 ==> IsDigit(s[k])
    requires forall k :: e1 + 1 <= k < e2 ==> IsDigit(s[k])
    requires forall k :: e2 + 1 <= k < e3 ==> IsDigit(s[k])
    ensures VersionNameAt(s, i).Some? && i + |VersionNameAt(s, i).value| >= e3
    ensures VersionNameAt(s, i).value == s[i..i + |VersionNameAt(s, i).value|]
  {
    RunEndBefore(s, i + 1, e1, IsDigit);
    RunEndBefore(s, e1 + 1, e2, IsDigit);
    var j3 := RunEnd(s, e2 + 1, IsDigit);
    assert j3 >= e3;
  }

  /** A run stops at the first character outside it. */
  lemma RunEndBefore(s: string, p: nat, e: nat, inRun: char -> bool)
    requires p <= e < |s| && !inRun(s[e]) && forall k :: p <= k < e ==> inRun(s[k])
    ensures RunEnd(s, p, inRun) == e
  {
  }

  /** What the pattern matches is `v` and a version number. */
  lemma VersionNameAtParses(s: string, i: nat)
    requires VersionNameAt(s, i).Some?
    ensures ParseVersion(VersionNameAt(s, i).value[1..]).Ok?
  {
    var j1 := RunEnd(s, i + 1, IsDigit);
    var j2 := RunEnd(s, j1 + 1, IsDigit);
    var j3 := RunEnd(s, j2 + 1, IsDigit);
    assert i + 1 < j1 && j1 + 1 < j2 && j2 + 1 < j3 && s[j1] == '.' && s[j2] == '.';
    assert VersionNameAt(s, i).value == s[i..j3];
    VersionNameParses(s, i, j1, j2, j3);
  }

  /** Three digit runs separated by dots after a `v` make a version number. */
  lemma VersionNameParses(s: string, i: nat, j1: nat, j2: nat, j3: nat)
    requires i + 1 < j1 && j1 + 1 < j2 && j2 + 1 < j3 <= |s|
    requires s[j1] == '.' && s[j2] == '.'
    requires forall k :: i + 1 <= k < j1 ==> IsDigit(s[k])
    requires forall k :: j1 + 1 <= k < j2 ==> IsDigit(s[k])
    requires forall k :: j2 + 1 <= k < j3 ==> IsDigit(s[k])
    ensures ParseVersion(s[i..j3][1..]).Ok?
  {
    DigitSlice(s, i + 1, j1);
    DigitSlice(s, j1 + 1, j2);
    DigitSlice(s, j2 + 1, j3);
    VersionNameShape(s, i, j1, j2, j3);
    NumberParses(s[i + 1..j1], s[j1 + 1..j2], s[j2 + 1..j3]);
  }

  lemma DigitSlice(s: string, a: nat, b: nat)
    requires a <= b <= |s| && forall k :: a <= k < b ==> IsDigit(s[k])
    ensures AllDigits(s[a..b])
  {
    var w := s[a..b];
    forall t | 0 <= t < |w| ensures IsDigit(w[t]) {
      assert w[t] == s[a + t];
    }
  }

  /** The name after its `v` is the three runs joined by the dots between them. */
  lemma VersionNameShape(s: string, i: nat, j1: nat, j2: nat, j3: nat)
    requires i + 1 < j1 && j1 + 1 < j2 && j2 + 1 < j3 <= |s|
    requires s[j1] == '.' && s[j2] == '.'
    ensures s[i..j3][1..] == s[i + 1..j1] + ['.'] + (s[j1 + 1..j2] + ['.'] + s[j2 + 1..j3])
  {
    var a, b, c := s[i + 1..j1], s[j1 + 1..j2], s[j2 + 1..j3];
    assert s[j2..j3] == ['.'] + c;
    assert s[j1 + 1..j3] == b + s[j2..j3];
    assert s[j1..j3] == ['.'] + (b + ['.'] + c);
    assert s[i + 1..j3] == a + s[j1..j3];
    assert s[i..j3][1..] == s[i + 1..j3];
  }

  lemma NumberParses(a: string, b: string, c: string)
    requires |a| >= 1 && |b| >= 1 && |c| >= 1 && AllDigits(a) && AllDigits(b) && AllDigits(c)
    ensures ParseVersion(a + ['.'] + (b + ['.'] + c)).Ok?
  {
    assert a + ['.'] + (b + ['.'] + c) == "" + a + ['.'] + (b + ['.'] + (c + ""));
    ParsePieces("", a, b, c, "");
  }

  /** A tag line `Tag.__init__` accepts: one that contains a `v<major>.<minor>.<patch>` name. */
  predicate HasVersionName(text: string) {
    FirstMatch(text, 0, VersionNameAt).Some?
  }

  datatype Tag = Tag(date: string, name: string, number: string, version: Semver)

  /** `Tag(text)`: the first ten characters are the date; the leftmost version name gives the rest. */
  function ParseTag(text: string): Tag
    requires HasVersionName(text)
  {
    var m := FirstMatch(text, 0, VersionNameAt).value;
    var name := m.1;
    VersionNameAtParses(text, m.0);
    Tag(text[..if |text| < 10 then |text| else 10], name, name[1..], ParseVersion(name[1..]).value)
  }

  /** A tag's name is a `v<major>.<minor>.<patch>` found in the line, its number the name without the `v`. */
  lemma TagFields(text: string)
    requires HasVersionName(text)
    ensures var t := ParseTag(text);
      t.date == text[..if |text| < 10 then |text| else 10]
      && |t.name| >= 6 && t.name[0] == 'v' && t.number == t.name[1..] && Contains(text, t.name)
      && ParseVersion(t.number) == Ok(t.version)
    ensures var t := ParseTag(text);
      exists p: nat :: p <= |text| && VersionNameAt(text, p) == Some(t.name)
        && forall j :: 0 <= j < p ==> VersionNameAt(text, j).None?
  {
    var m := FirstMatch(text, 0, VersionNameAt).value;
    assert OccursAt(text, m.1, m.0);
    assert VersionNameAt(text, m.0) == Some(m.1);
    VersionNameAtParses(text, m.0);
  }

  /** The output of `git tag` parses when it is blank or every line names a version. */
  predicate TagOutputParses(output: string) {
    var o := Strip(output);
    o == "" || var lines := Split(o, '\n'); forall k :: 0 <= k < |lines| ==> HasVersionName(lines[k])
  }

  /** `[f(x) for x in xs]` */
  function Map<A, B>(xs: seq<A>, f: A --> B): (ys: seq<B>)
    requires forall i :: 0 <= i < |xs| ==> f.requires(xs[i])
    ensures |ys| == |xs| && forall i :: 0 <= i < |ys| ==> ys[i] == f(xs[i])
  {
    if xs == [] then [] else [f(xs[0])] + Map(xs[1..], f)
  }

  /** `list(reversed(xs))` */
  function Reversed<T>(xs: seq<T>): (r: seq<T>)
    ensures |r| == |xs| && forall i :: 0 <= i < |r| ==> r[i] == xs[|xs| - 1 - i]
  {
    if xs == [] then [] else [xs[|xs| - 1]] + Reversed(xs[..|xs| - 1])
  }

  /** Mapping then reversing: the i-th result is the image of the i-th element from the end. */
  lemma ReversedMap<A, B>(xs: seq<A>, f: A --> B)
    requires forall i :: 0 <= i < |xs| ==> f.requires(xs[i])
    ensures var ys := Reversed(Map(xs, f));
      |ys| == |xs| && forall i :: 0 <= i < |ys| ==> ys[i] == f(xs[|xs| - 1 - i])
  {
    var mapped := Map(xs, f);
    var ys := Reversed(mapped);
    forall i | 0 <= i < |ys| ensures ys[i] == f(xs[|xs| - 1 - i]) {
      var j := |xs| - 1 - i;
      assert ys[i] == mapped[j];
    }
  }

  /**
   * The tags `Git.tag()` returns for the listing `output`: none for blank output,
   * otherwise one per line, newest (last listed) first.
   */
  function TagsFromOutput(output: string): (tags: seq<Tag>)
    requires TagOutputParses(output)
    ensures Strip(output) == "" ==> tags == []
    ensures Strip(output) != "" ==> tags == Reversed(Map(Split(Strip(output), '\n'), ParseTag))
  {
    var o := Strip(output);
    if o == "" then [] else Reversed(Map(Split(o, '\n'), ParseTag))
  }

  /** `Git.tag()` lists one tag per line of the listing, the last listed first. */
  lemma TagsNewestFirst(output: string)
    requires TagOutputParses(output) && Strip(output) != ""
    ensures var lines, tags := Split(Strip(output), '\n'), TagsFromOutput(output);
      |tags| == |lines| && forall i :: 0 <= i < |tags| ==> tags[i] == ParseTag(lines[|lines| - 1 - i])
  {
    var lines, tags := Split(Strip(output), '\n'), TagsFromOutput(output);
    assert tags == Reversed(Map(lines, ParseTag));
    TagsOfLines(lines);
    forall i | 0 <= i < |tags| ensures tags[i] == ParseTag(lines[|lines| - 1 - i]) {
      assert tags[i] == Reversed(Map(lines, ParseTag))[i];
    }
  }

  /** The tags of listed lines, reversed: the i-th tag is the tag of the i-th line from the end. */
  lemma TagsOfLines(lines: seq<string>)
    requires forall k :: 0 <= k < |lines| ==> HasVersionName(lines[k])
    ensures var tags := Reversed(Map(lines, ParseTag));
      |tags| == |lines| && forall i :: 0 <= i < |tags| ==> tags[i] == ParseTag(lines[|lines| - 1 - i])
  {
    var tags := Reversed(Map(lines, ParseTag));
    ReversedMap(lines, ParseTag);
    forall i | 0 <= i < |tags| ensures tags[i] == ParseTag(lines[|lines| - 1 - i]) {
      var line := lines[|lines| - 1 - i];
      assert HasVersionName(line);
      assert tags[i] == ParseTag(line);
    }
  }

  /** The listing command `Git.tag()` runs, and the annotated-tag command `Git.tag(name)` runs. */
  function TagCommand(name: Option<string>): (cmd: seq<string>)
    ensures |cmd| >= 2 && cmd[..2] == ["git", "tag"]
    ensures !Truthy(name) ==> cmd[2..] == ["-l", "--sort=creatordate", "--format=%(creatordate:short)%09%(refname:strip=2)"]
    ensures Truthy(name) ==> cmd[2..] == ["-a", name.value, "-m", "\"\""]
  {
    if !Truthy(name) then
      ["git", "tag", "-l", "--sort=creatordate", "--format=%(creatordate:short)%09%(refname:strip=2)"]
    else
      ["git", "tag", "-a", name.value, "-m", "\"\""]
  }

  /** The part of `Git` with state: the tag list, read once and then kept. */
  class Git {
    /** `_tag_list`; `None` until the `tags` property is first read. */
    var tagCache: Option<seq<Tag>>

    constructor ()
      ensures tagCache.None?
    {
      tagCache := None;
    }

    /**
     * The `tags` property, given what `git tag` would print: the first read parses it
     * and keeps the result; later reads return the kept list and ignore the output.
     */
    method Tags(output: string) returns (tags: seq<Tag>)
      requires tagCache.None? ==> TagOutputParses(output)
      modifies this
      ensures old(tagCache).Some? ==> tags == old(tagCache).value && tagCache == old(tagCache)
      ensures old(tagCache).None? ==> tags == TagsFromOutput(output) && tagCache == Some(tags)
    {
      if tagCache.None? {
        tagCache := Some(TagsFromOutput(output));
      }
      tags := tagCache.value;
    }
  }
}
