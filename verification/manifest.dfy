/** The checksum manifest (SHASUMS256.txt) as lib/index.js reads it, and
    `getApprovedSignatures`, which keeps the entries whose file the caller
    approves. */
module Manifest {
  import opened Results
  import opened Seqs
  import opened Text

  /** One manifest line as `{checksum, filepath}`. A line with fewer than two
      tokens destructures `filepath` to `undefined`, modelled as `None`. */
  datatype Signature = Signature(checksum: string, filepath: Option<string>)

  /** `let [checksum, filepath] = line.trim().split(/\s+/)`: the first token
      is the checksum, the second the file path, and any further tokens are
      ignored. A blank line yields an empty checksum and no path. */
  function ParseLine(line: string): (r: Signature)
    ensures |r.checksum| <= |Trim(line)| && r.checksum == Trim(line)[..|r.checksum|] && NoWs(r.checksum)
    ensures |r.checksum| == |Trim(line)| || IsWs(Trim(line)[|r.checksum|])
  {
    var tokens := SplitWs(Trim(line));
    Signature(tokens[0], if |tokens| > 1 then Some(tokens[1]) else None)
  }

  /** Every parsed line has a white-space-free checksum, empty exactly when
      the line is blank, and a path, when present, that is non-empty and free
      of white space. */
  lemma ParseLineShape(line: string)
    ensures var r := ParseLine(line);
      && NoWs(r.checksum)
      && (r.checksum == "" <==> AllWs(line))
      && (r.filepath.Some? ==> r.checksum != "" && r.filepath.value != "" && NoWs(r.filepath.value))
  {
    var t := Trim(line);
    var tokens := SplitWs(t);
    TrimEmptyIff(line);
    if t == [] {
      assert tokens == [""];
    } else {
      assert !IsWs(t[0]) && !IsWs(t[|t| - 1]);
      assert tokens[0] != [];
      if |tokens| > 1 {
        SplitWsPieces(t);
        assert NoWs(tokens[1]);
        if |tokens| > 2 {
          assert tokens[1] != "";
        } else {
          assert tokens[|tokens| - 1] != "";
        }
      }
    }
  }

  /** The manifest body trimmed and split into lines on "\n". */
  function Lines(body: string): (r: seq<string>)
    ensures |r| >= 1
    ensures forall i :: 0 <= i < |r| ==> '\n' !in r[i]
    ensures JoinWith(r, '\n') == Trim(body)
  {
    SplitOn(Trim(body), '\n')
  }

  /** `body.trim().split(/\n/g).map(...)`: one entry per line of the
      trimmed body, each parsed on its own. */
  function ParseManifest(body: string): (r: seq<Signature>)
    ensures |r| == |Lines(body)| && |r| >= 1
    ensures forall i :: 0 <= i < |r| ==> r[i] == ParseLine(Lines(body)[i])
  {
    var lines := Lines(body);
    seq(|lines|, i requires 0 <= i < |lines| => ParseLine(lines[i]))
  }

  /** A blank body still yields one entry, with an empty checksum and no
      path, since "".split(/\n/g) is [""]. */
  lemma ParseBlankManifest(body: string)
    requires AllWs(body)
    ensures ParseManifest(body) == [Signature("", None)]
  {
    BlankLines(body);
    BlankLine();
    var r := ParseManifest(body);
    assert |r| == 1 && r[0] == ParseLine("");
  }

  lemma BlankLines(body: string)
    requires AllWs(body)
    ensures Lines(body) == [""]
  {
    TrimEmptyIff(body);
    assert SplitOn([], '\n') == [""];
  }

  lemma BlankLine()
    ensures ParseLine("") == Signature("", None)
  {
    assert Trim("") == "";
    assert SplitWs("") == [""];
  }

  /** The text a file path is written as: an `undefined` path interpolates
      as "undefined". */
  function PathText(p: Option<string>): string {
    if p.Some? then p.value else "undefined"
  }

  /** An entry as a manifest writes it: checksum, white space, file path, each
      non-empty and free of white space. */
  ghost predicate WellFormed(s: Signature) {
    && s.checksum != "" && NoWs(s.checksum)
    && s.filepath.Some? && s.filepath.value != "" && NoWs(s.filepath.value)
  }

  function LineText(s: Signature): string {
    s.checksum + " " + PathText(s.filepath)
  }

  /** The manifest text for a list of entries, one line each, joined by "\n". */
  function ManifestText(sigs: seq<Signature>): string {
    JoinWith(LineTexts(sigs), '\n')
  }

  function LineTexts(sigs: seq<Signature>): (r: seq<string>)
    ensures |r| == |sigs|
    ensures forall i :: 0 <= i < |sigs| ==> r[i] == LineText(sigs[i])
  {
    seq(|sigs|, i requires 0 <= i < |sigs| => LineText(sigs[i]))
  }

  /** A line of at least two tokens, separated by white-space runs of any
      length and kind and with any white space around it, parses to its
      first token as checksum and its second as path; further tokens are
      ignored. */
  lemma ParseLineTokens(w1: string, tokens: seq<string>, runs: seq<string>, w2: string)
    requires |tokens| >= 2 && |runs| == |tokens| - 1
    requires forall i :: 0 <= i < |tokens| ==> tokens[i] != "" && NoWs(tokens[i])
    requires forall i :: 0 <= i < |runs| ==> runs[i] != "" && AllWs(runs[i])
    requires AllWs(w1) && AllWs(w2)
    ensures ParseLine(w1 + JoinRuns(tokens, runs) + w2) == Signature(tokens[0], Some(tokens[1]))
  {
    var s := JoinRuns(tokens, runs);
    JoinRunsHead(tokens, runs);
    JoinRunsLast(tokens, runs);
    TrimPadded(w1, s, w2);
    SplitWsJoinRuns(tokens, runs);
  }

  /** A line of exactly one token, with any white space around it, parses to
      that token as checksum and an `undefined` path. */
  lemma ParseLineOneToken(w1: string, t: string, w2: string)
    requires t != "" && NoWs(t)
    requires AllWs(w1) && AllWs(w2)
    ensures ParseLine(w1 + t + w2) == Signature(t, None)
  {
    TrimPadded(w1, t, w2);
    SplitWsPiece(t, []);
    assert t + [] == t;
  }

  lemma NoNewline(a: string, b: string)
    requires NoWs(a) && NoWs(b)
    ensures '\n' !in a + " " + b
  {
    var t := a + " " + b;
    forall k | 0 <= k < |t|
      ensures t[k] != '\n'
    {
      if k < |a| {
        assert t[k] == a[k];
      } else if k > |a| {
        assert t[k] == b[k - |a| - 1];
      }
    }
  }

  lemma WellFormedLine(s: Signature)
    requires WellFormed(s)
    ensures '\n' !in LineText(s)
    ensures ParseLine(LineText(s)) == s
  {
    var toks := [s.checksum, s.filepath.value];
    assert JoinRuns(toks, [" "]) == LineText(s) by {
      assert toks[1..] == [s.filepath.value];
    }
    ParseLineTokens([], toks, [" "], []);
    assert [] + LineText(s) + [] == LineText(s);
    NoNewline(s.checksum, s.filepath.value);
  }

  lemma ManifestTextTrimmed(sigs: seq<Signature>, w: string)
    requires |sigs| >= 1
    requires forall i :: 0 <= i < |sigs| ==> WellFormed(sigs[i])
    requires AllWs(w)
    ensures Trim(ManifestText(sigs) + w) == ManifestText(sigs)
  {
    var lines := LineTexts(sigs);
    var text := ManifestText(sigs);
    var first := sigs[0];
    var last := sigs[|sigs| - 1];
    assert WellFormed(first) && WellFormed(last);
    assert lines[0][0] == first.checksum[0];
    var n := |lines[|lines| - 1]|;
    assert lines[|lines| - 1][n - 1] == last.filepath.value[|last.filepath.value| - 1];
    JoinWithHead(lines, '\n');
    JoinWithLast(lines, '\n');
    TrimPadded([], text, w);
    assert [] + text + w == text + w;
  }

  /** Round trip: parsing the text of a non-empty list of well-formed
      entries, followed by any trailing white space such as the final
      newline, gives back exactly those entries, in order. */
  lemma ParseManifestText(sigs: seq<Signature>, w: string)
    requires |sigs| >= 1
    requires forall i :: 0 <= i < |sigs| ==> WellFormed(sigs[i])
    requires AllWs(w)
    ensures ParseManifest(ManifestText(sigs) + w) == sigs
  {
    var lines := LineTexts(sigs);
    WellFormedLines(sigs);
    ManifestTextTrimmed(sigs, w);
    SplitJoin(lines, '\n');
    var text := ManifestText(sigs) + w;
    assert Lines(text) == lines;
    ParsedLines(text, sigs);
  }

  lemma ParsedLines(text: string, sigs: seq<Signature>)
    requires Lines(text) == LineTexts(sigs)
    requires forall i :: 0 <= i < |sigs| ==> ParseLine(LineTexts(sigs)[i]) == sigs[i]
    ensures ParseManifest(text) == sigs
  {
    var r := ParseManifest(text);
    assert |r| == |sigs|;
    forall i | 0 <= i < |sigs|
      ensures r[i] == sigs[i]
    {
      assert r[i] == ParseLine(LineTexts(sigs)[i]);
    }
  }

  lemma WellFormedLines(sigs: seq<Signature>)
    requires forall i :: 0 <= i < |sigs| ==> WellFormed(sigs[i])
    ensures forall i :: 0 <= i < |sigs| ==> '\n' !in LineTexts(sigs)[i] && ParseLine(LineTexts(sigs)[i]) == sigs[i]
  {
    forall i | 0 <= i < |sigs|
      ensures '\n' !in LineTexts(sigs)[i] && ParseLine(LineTexts(sigs)[i]) == sigs[i]
    {
      WellFormedLine(sigs[i]);
    }
  }

  /** `getApprovedSignatures`: the entries whose file path the caller
      approves, in manifest order. */
  function ApprovedSignatures(sigs: seq<Signature>, approve: Option<string> -> bool): (r: seq<Signature>)
    ensures forall s :: s in r <==> s in sigs && approve(s.filepath)
    ensures r == [] <==> forall i :: 0 <= i < |sigs| ==> !approve(sigs[i].filepath)
  {
    var p := (s: Signature) => approve(s.filepath);
    FilterMembers(sigs, p);
    FilterEmpty(sigs, p);
    Filter(sigs, p)
  }

  /** `sigs[j]` is the first entry the caller approves. */
  ghost predicate FirstApproved(sigs: seq<Signature>, approve: Option<string> -> bool, j: int) {
    && 0 <= j < |sigs| && approve(sigs[j].filepath)
    && forall i :: 0 <= i < j ==> !approve(sigs[i].filepath)
  }

  /** The approved list keeps every approved occurrence, drops every other,
      starts with the first approved entry, and distributes over splitting
      the manifest, so it preserves manifest order. */
  lemma ApprovedSignaturesSpec(sigs: seq<Signature>, approve: Option<string> -> bool, s: Signature, j: int)
    ensures multiset(ApprovedSignatures(sigs, approve))[s]
         == if approve(s.filepath) then multiset(sigs)[s] else 0
    ensures FirstApproved(sigs, approve, j) ==>
      (|ApprovedSignatures(sigs, approve)| > 0 && ApprovedSignatures(sigs, approve)[0] == sigs[j])
    ensures forall a, b :: sigs == a + b ==>
      ApprovedSignatures(sigs, approve) == ApprovedSignatures(a, approve) + ApprovedSignatures(b, approve)
  {
    var p := (s: Signature) => approve(s.filepath);
    FilterCount(sigs, p, s);
    if FirstApproved(sigs, approve, j) {
      FilterHead(sigs, p, j);
    }
    forall a, b | sigs == a + b
      ensures ApprovedSignatures(sigs, approve) == ApprovedSignatures(a, approve) + ApprovedSignatures(b, approve)
    {
      FilterAppend(a, b, p);
    }
  }

  /** Some entry is approved exactly when there is a first approved one. */
  lemma {:induction false} FirstApprovedExists(sigs: seq<Signature>, approve: Option<string> -> bool)
    ensures (exists i :: 0 <= i < |sigs| && approve(sigs[i].filepath)) <==> exists j :: FirstApproved(sigs, approve, j)
    decreases |sigs|
  {
    if |sigs| > 0 {
      FirstApprovedExists(sigs[1..], approve);
      if !approve(sigs[0].filepath) && exists i :: 0 <= i < |sigs| && approve(sigs[i].filepath) {
        var i :| 0 <= i < |sigs| && approve(sigs[i].filepath);
        assert approve(sigs[1..][i - 1].filepath);
        var j :| FirstApproved(sigs[1..], approve, j);
        assert FirstApproved(sigs, approve, j + 1) by {
          forall k | 0 <= k < j + 1
            ensures !approve(sigs[k].filepath)
          {
            if k > 0 { assert sigs[k] == sigs[1..][k - 1]; }
          }
        }
      } else if approve(sigs[0].filepath) {
        assert FirstApproved(sigs, approve, 0);
      }
    }
  }
}
