/** The decisions of `check` in lib/index.js: select a version, require the
    decrypted signed manifest to equal the cleartext one, keep the approved
    files, and accept the first approved file only if its computed checksum
    matches the manifest. Everything fetched or computed by an external tool
    is an input, as a function of the URL it comes from. */
module Pipeline {
  import opened Results
  import opened Text
  import opened Versions
  import opened Manifest
  import Cleanup

  /** The caller's configuration. `approveVersion` is optional in the source
      and defaults to approving every entry; a caller that omits it is
      modelled by passing `e => true`. */
  datatype Config = Config(
    currentVersion: Triple,
    distUrl: string,
    approveFilename: Option<string> -> bool,
    approveVersion: DistEntry -> bool)

  /** What the network and the external tools produce. */
  datatype Remote = Remote(
    index: string -> seq<DistEntry>,      // index.json at a URL, parsed
    text: string -> string,               // the body at a URL
    decrypted: (string, string) -> string, // gpg's output for the key at one URL and the signed file at another
    digest: string -> string)             // shasum's output for the bytes at a URL

  /** `{from, stream, checksum}`; the stream itself is not modelled. */
  datatype Download = Download(from: string, checksum: string)

  datatype Failure =
    | NoApprovedVersion
    | SignatureMismatch
    | NoApprovedFile
    | ChecksumMismatch(url: string)
    | CleanupFailed(error: Cleanup.CleanupError)

  /** The callback's arguments, and the URL of the file whose bytes were
      downloaded and checksummed, if the pipeline got that far. */
  datatype Outcome = Outcome(result: Result<Download, Failure>, fetched: Option<string>)

  /** `${distUrl}/index.json`: never the directory of any version, since
      a version directory's name starts with "v". */
  function IndexUrl(distUrl: string): (r: string)
    ensures forall v :: r != VersionUrl(distUrl, v)
  {
    distUrl + "/index.json"
  }

  /** `${distUrl}/${best_version.version}`: the distribution URL, a slash,
      then the "v"-tagged version. */
  function VersionUrl(distUrl: string, v: Version): (r: string)
    ensures |r| > |distUrl| + 1 && r[..|distUrl| + 1] == distUrl + "/" && r[|distUrl| + 1] == 'v'
    ensures r[|distUrl| + 1..] == VersionText(v)
  {
    distUrl + "/" + VersionText(v)
  }

  /** Two versions share a directory only when they are the same version. */
  lemma VersionUrlInjective(distUrl: string, v: Version, w: Version)
    ensures VersionUrl(distUrl, v) == VersionUrl(distUrl, w) <==> v == w
  {
    var n := |distUrl| + 1;
    assert VersionUrl(distUrl, v)[n..] == VersionText(v);
    assert VersionUrl(distUrl, w)[n..] == VersionText(w);
    VersionTextInjective(v, w);
  }

  /** The release key is the manifest's `.gpg` sibling. */
  function KeyUrl(versionUrl: string): (r: string)
    ensures r == CleartextUrl(versionUrl) + ".gpg"
  {
    versionUrl + "/SHASUMS256.txt.gpg"
  }

  /** The cleartext manifest is the file `SHASUMS256.txt` of the version
      directory. */
  function CleartextUrl(versionUrl: string): (r: string)
    ensures r == FileUrl(versionUrl, Some("SHASUMS256.txt"))
  {
    versionUrl + "/SHASUMS256.txt"
  }

  /** The signed manifest is the manifest's `.asc` sibling, never the key. */
  function SignedUrl(versionUrl: string): (r: string)
    ensures r == CleartextUrl(versionUrl) + ".asc"
    ensures r != KeyUrl(versionUrl)
  {
    assert KeyUrl(versionUrl)[|versionUrl| + 16] == 'g';
    versionUrl + "/SHASUMS256.txt.asc"
  }

  /** `${version_url}/${download.filepath}`: a file of the version
      directory, its path read back from the URL after the slash. */
  function FileUrl(versionUrl: string, path: Option<string>): (r: string)
    ensures |r| > |versionUrl| && r[..|versionUrl| + 1] == versionUrl + "/"
  {
    versionUrl + "/" + PathText(path)
  }

  /** The key, the cleartext manifest and the signed manifest are three
      different URLs. */
  lemma ManifestUrlsDistinct(versionUrl: string)
    ensures KeyUrl(versionUrl) != CleartextUrl(versionUrl)
    ensures SignedUrl(versionUrl) != CleartextUrl(versionUrl)
    ensures KeyUrl(versionUrl) != SignedUrl(versionUrl)
  {
    var c := CleartextUrl(versionUrl);
    assert |KeyUrl(versionUrl)| == |c| + 4;
    assert KeyUrl(versionUrl)[|c| + 1] == 'g' && SignedUrl(versionUrl)[|c| + 1] == 'a';
  }

  /** Two entries of one manifest are fetched from the same URL exactly when
      their paths render alike; an `undefined` path renders as "undefined",
      so it shares its URL with a file literally named "undefined". */
  lemma FileUrlInjective(versionUrl: string, p: Option<string>, q: Option<string>)
    ensures FileUrl(versionUrl, p) == FileUrl(versionUrl, q) <==> PathText(p) == PathText(q)
    ensures FileUrl(versionUrl, None) == FileUrl(versionUrl, Some("undefined"))
  {
    var n := |versionUrl| + 1;
    assert FileUrl(versionUrl, p)[n..] == PathText(p);
    assert FileUrl(versionUrl, q)[n..] == PathText(q);
  }

  /** The body of `check`: resolve the version, then verify its manifest
      and fetch from it. The version selection's `null` result becomes
      `NoApprovedVersion`. */
  function Check(cfg: Config, net: Remote): (r: Outcome)
    ensures r.result.Success? ==> r.fetched == Some(r.result.value.from)
    ensures r.result.Success? ==> FirstToken(net.digest(r.result.value.from)) == r.result.value.checksum
    ensures r.result.Failure? && r.result.error.ChecksumMismatch? ==> r.fetched == Some(r.result.error.url)
    ensures r.fetched.Some? ==> r.result.Success? || r.result.error.ChecksumMismatch?
  {
    match VersionFromDist(net.index(IndexUrl(cfg.distUrl)), cfg.approveVersion, cfg.currentVersion)
    case None => Outcome(Failure(NoApprovedVersion), None)
    case Some(best) => Verify(cfg, net, best)
  }

  /** The stage after version resolution: the decrypted signed manifest must
      equal the cleartext copy before any of it is trusted. */
  function Verify(cfg: Config, net: Remote, best: DistEntry): (r: Outcome)
    ensures r.result.Success? ==> r.fetched == Some(r.result.value.from)
    ensures r.result.Success? ==> FirstToken(net.digest(r.result.value.from)) == r.result.value.checksum
    ensures r.result.Failure? && r.result.error.ChecksumMismatch? ==> r.fetched == Some(r.result.error.url)
    ensures r.fetched.Some? ==> r.result.Success? || r.result.error.ChecksumMismatch?
    ensures r.result != Failure(NoApprovedVersion)
  {
    var versionUrl := VersionUrl(cfg.distUrl, best.version);
    var cleartext := net.text(CleartextUrl(versionUrl));
    var decrypted := net.decrypted(KeyUrl(versionUrl), SignedUrl(versionUrl));
    if decrypted != cleartext then Outcome(Failure(SignatureMismatch), None)
    else Fetch(net, versionUrl, ApprovedSignatures(ParseManifest(decrypted), cfg.approveFilename))
  }

  /** The download loop over the approved entries. Its body ends in `return`,
      so only the first approved entry is ever fetched and checked. */
  function Fetch(net: Remote, versionUrl: string, files: seq<Signature>): (r: Outcome)
    ensures r.result.Success? ==> r.fetched == Some(r.result.value.from)
    ensures r.result.Success? ==> FirstToken(net.digest(r.result.value.from)) == r.result.value.checksum
    ensures r.result.Failure? && r.result.error.ChecksumMismatch? ==> r.fetched == Some(r.result.error.url)
    ensures r.fetched.Some? ==> r.result.Success? || r.result.error.ChecksumMismatch?
    ensures r.result == Failure(NoApprovedFile) <==> files == []
    ensures r.result != Failure(NoApprovedVersion) && r.result != Failure(SignatureMismatch)
  {
    if |files| == 0 then Outcome(Failure(NoApprovedFile), None)
    else
      var download := files[0];
      var url := FileUrl(versionUrl, download.filepath);
      if FirstToken(net.digest(url)) != download.checksum then
        Outcome(Failure(ChecksumMismatch(url)), Some(url))
      else
        Outcome(Success(Download(url, download.checksum)), Some(url))
  }

  /** The qualifying index entries. */
  function Candidates(cfg: Config, net: Remote): seq<DistEntry> {
    Qualifying(net.index(IndexUrl(cfg.distUrl)), cfg.approveVersion, cfg.currentVersion)
  }

  /** `v` is the first of the newest qualifying entries. */
  ghost predicate Selected(cfg: Config, net: Remote, v: DistEntry) {
    exists k :: EarliestMax(Candidates(cfg, net), k) && Candidates(cfg, net)[k] == v
  }

  /** The signed manifest of `v`, once decrypted, equals its cleartext copy. */
  ghost predicate SignatureMatches(cfg: Config, net: Remote, v: DistEntry) {
    var versionUrl := VersionUrl(cfg.distUrl, v.version);
    net.decrypted(KeyUrl(versionUrl), SignedUrl(versionUrl)) == net.text(CleartextUrl(versionUrl))
  }

  /** The manifest entries of `v` as its cleartext copy reads. */
  function Entries(cfg: Config, net: Remote, v: DistEntry): seq<Signature> {
    ParseManifest(net.text(CleartextUrl(VersionUrl(cfg.distUrl, v.version))))
  }

  /** The URL of entry `s` of version `v`'s manifest. */
  function EntryUrl(cfg: Config, v: DistEntry, s: Signature): string {
    FileUrl(VersionUrl(cfg.distUrl, v.version), s.filepath)
  }

  /** The selected version and the first approved entry of its verified
      manifest, the only ones the pipeline goes on to check. */
  ghost predicate Reaches(cfg: Config, net: Remote, v: DistEntry, j: int) {
    && Selected(cfg, net, v)
    && SignatureMatches(cfg, net, v)
    && FirstApproved(Entries(cfg, net, v), cfg.approveFilename, j)
  }

  /** A version is selected exactly when it is the first of the newest
      qualifying entries; there is none exactly when nothing qualifies. */
  lemma SelectionIff(cfg: Config, net: Remote, v: DistEntry)
    ensures var sel := VersionFromDist(net.index(IndexUrl(cfg.distUrl)), cfg.approveVersion, cfg.currentVersion);
      (sel == Some(v) <==> Selected(cfg, net, v)) && (sel.None? <==> Candidates(cfg, net) == [])
  {
    var index := net.index(IndexUrl(cfg.distUrl));
    var q := Candidates(cfg, net);
    Seqs.FilterEmpty(index, e => cfg.approveVersion(e) && Gt(e.version.core, cfg.currentVersion));
    if q != [] {
      BestVersionIsEarliestMax(q);
      var k :| EarliestMax(q, k) && BestVersion(q) == q[k];
      if Selected(cfg, net, v) {
        var k' :| EarliestMax(q, k') && q[k'] == v;
        if k' != k {
          EarliestMaxUnique(q, k, k');
        }
      }
    }
  }

  /** Once `v` is selected, `check` continues with `v`'s manifest. */
  lemma CheckSelects(cfg: Config, net: Remote, v: DistEntry)
    requires Selected(cfg, net, v)
    ensures Check(cfg, net) == Verify(cfg, net, v)
  {
    SelectionIff(cfg, net, v);
  }

  /** Once `v`'s manifest is verified, `check` fetches from its approved
      entries. */
  lemma VerifyAccepts(cfg: Config, net: Remote, v: DistEntry)
    requires SignatureMatches(cfg, net, v)
    ensures Verify(cfg, net, v)
         == Fetch(net, VersionUrl(cfg.distUrl, v.version), ApprovedSignatures(Entries(cfg, net, v), cfg.approveFilename))
  {
  }

  /** The fetch stage checks the first approved entry at its URL. */
  lemma FetchFirst(net: Remote, versionUrl: string, files: seq<Signature>)
    requires files != []
    ensures var url := FileUrl(versionUrl, files[0].filepath);
      && Fetch(net, versionUrl, files).fetched == Some(url)
      && Fetch(net, versionUrl, files).result
         == if FirstToken(net.digest(url)) == files[0].checksum then Success(Download(url, files[0].checksum))
            else Failure(ChecksumMismatch(url))
  {
  }

  /** Some version is selected whenever `check` gets past version selection. */
  lemma SelectedWhenPast(cfg: Config, net: Remote) returns (v: DistEntry)
    requires Check(cfg, net).result != Failure(NoApprovedVersion)
    ensures Selected(cfg, net, v)
    ensures Check(cfg, net) == Verify(cfg, net, v)
  {
    var sel := VersionFromDist(net.index(IndexUrl(cfg.distUrl)), cfg.approveVersion, cfg.currentVersion);
    v := sel.value;
    SelectionIff(cfg, net, v);
  }

  /** `d` names the first approved entry of the selected version's verified
      manifest, at its URL, and the checksum tool agrees with it. */
  ghost predicate Verified(cfg: Config, net: Remote, d: Download) {
    exists v, j :: Reaches(cfg, net, v, j)
      && d == Download(EntryUrl(cfg, v, Entries(cfg, net, v)[j]), Entries(cfg, net, v)[j].checksum)
      && FirstToken(net.digest(d.from)) == d.checksum
  }

  /** Acceptance: `check` succeeds with `d` exactly when the first of the
      newest approved versions has a signed manifest equal to its cleartext
      copy, `d` names the first approved entry of that manifest, at the URL
      built from the distribution URL, the version and the file path, and the
      checksum tool's first token for that URL equals the entry's checksum. */
  lemma CheckSucceedsIff(cfg: Config, net: Remote, d: Download)
    ensures Check(cfg, net).result == Success(d) <==> Verified(cfg, net, d)
  {
    if Check(cfg, net).result == Success(d) {
      CheckSuccessVerified(cfg, net, d);
    }
    if Verified(cfg, net, d) {
      VerifiedCheckSucceeds(cfg, net, d);
    }
  }

  lemma CheckSuccessVerified(cfg: Config, net: Remote, d: Download)
    requires Check(cfg, net).result == Success(d)
    ensures Verified(cfg, net, d)
  {
    var v := SelectedWhenPast(cfg, net);
    assert SignatureMatches(cfg, net, v);
    VerifyAccepts(cfg, net, v);
    var files := ApprovedSignatures(Entries(cfg, net, v), cfg.approveFilename);
    var j := FirstApprovedOf(Entries(cfg, net, v), cfg.approveFilename);
    FetchFirst(net, VersionUrl(cfg.distUrl, v.version), files);
    assert Reaches(cfg, net, v, j);
  }

  lemma VerifiedCheckSucceeds(cfg: Config, net: Remote, d: Download)
    requires Verified(cfg, net, d)
    ensures Check(cfg, net).result == Success(d)
  {
    var v, j :| Reaches(cfg, net, v, j)
      && d == Download(EntryUrl(cfg, v, Entries(cfg, net, v)[j]), Entries(cfg, net, v)[j].checksum)
      && FirstToken(net.digest(d.from)) == d.checksum;
    CheckSelects(cfg, net, v);
    VerifyAccepts(cfg, net, v);
    var files := ApprovedSignatures(Entries(cfg, net, v), cfg.approveFilename);
    ApprovedSignaturesSpec(Entries(cfg, net, v), cfg.approveFilename, Entries(cfg, net, v)[j], j);
    FetchFirst(net, VersionUrl(cfg.distUrl, v.version), files);
  }

  /** The position of the first approved entry, when some entry is approved. */
  lemma FirstApprovedOf(sigs: seq<Signature>, approve: Option<string> -> bool) returns (j: int)
    requires ApprovedSignatures(sigs, approve) != []
    ensures FirstApproved(sigs, approve, j)
    ensures ApprovedSignatures(sigs, approve)[0] == sigs[j]
  {
    FirstApprovedExists(sigs, approve);
    j :| FirstApproved(sigs, approve, j);
    ApprovedSignaturesSpec(sigs, approve, sigs[j], j);
  }

  /** No version qualifies exactly when no index entry is both approved and
      strictly newer than the current version. */
  lemma CheckNoVersionIff(cfg: Config, net: Remote)
    ensures Check(cfg, net).result == Failure(NoApprovedVersion) <==>
      forall i :: 0 <= i < |net.index(IndexUrl(cfg.distUrl))| ==>
        var e := net.index(IndexUrl(cfg.distUrl))[i];
        !(cfg.approveVersion(e) && Gt(e.version.core, cfg.currentVersion))
  {
    var sel := VersionFromDist(net.index(IndexUrl(cfg.distUrl)), cfg.approveVersion, cfg.currentVersion);
    if sel.Some? {
      assert Check(cfg, net) == Verify(cfg, net, sel.value);
    }
  }

  /** The pipeline stops with a signature mismatch, before downloading any
      file, exactly when the selected version's decrypted signed manifest
      differs from its cleartext copy, in even one character. */
  lemma CheckSignatureMismatchIff(cfg: Config, net: Remote)
    ensures Check(cfg, net).result == Failure(SignatureMismatch) <==>
      exists v :: Selected(cfg, net, v) && !SignatureMatches(cfg, net, v)
    ensures Check(cfg, net).result == Failure(SignatureMismatch) ==> Check(cfg, net).fetched.None?
  {
    if Check(cfg, net).result == Failure(SignatureMismatch) {
      var v := SelectedWhenPast(cfg, net);
      if SignatureMatches(cfg, net, v) {
        VerifyAccepts(cfg, net, v);
      }
    }
    if exists v :: Selected(cfg, net, v) && !SignatureMatches(cfg, net, v) {
      var v :| Selected(cfg, net, v) && !SignatureMatches(cfg, net, v);
      CheckSelects(cfg, net, v);
    }
  }

  /** The selected version's manifest is verified but the caller approves
      none of its entries. */
  ghost predicate NoneApproved(cfg: Config, net: Remote, v: DistEntry) {
    && Selected(cfg, net, v) && SignatureMatches(cfg, net, v)
    && forall i :: 0 <= i < |Entries(cfg, net, v)| ==> !cfg.approveFilename(Entries(cfg, net, v)[i].filepath)
  }

  /** The pipeline stops for want of an approved file exactly when the
      selected version's manifest is verified but the caller approves none of
      its entries. */
  lemma CheckNoFileIff(cfg: Config, net: Remote)
    ensures Check(cfg, net).result == Failure(NoApprovedFile) <==> exists v :: NoneApproved(cfg, net, v)
  {
    if Check(cfg, net).result == Failure(NoApprovedFile) {
      var v := NoFileSound(cfg, net);
    }
    if exists v :: NoneApproved(cfg, net, v) {
      var v :| NoneApproved(cfg, net, v);
      NoneApprovedNoFile(cfg, net, v);
    }
  }

  lemma NoFileSound(cfg: Config, net: Remote) returns (v: DistEntry)
    requires Check(cfg, net).result == Failure(NoApprovedFile)
    ensures NoneApproved(cfg, net, v)
  {
    v := SelectedWhenPast(cfg, net);
    assert SignatureMatches(cfg, net, v);
    VerifyAccepts(cfg, net, v);
  }

  lemma NoneApprovedNoFile(cfg: Config, net: Remote, v: DistEntry)
    requires NoneApproved(cfg, net, v)
    ensures Check(cfg, net).result == Failure(NoApprovedFile)
  {
    CheckSelects(cfg, net, v);
    VerifyAccepts(cfg, net, v);
  }

  /** The first approved entry of the selected version's verified manifest
      is fetched from `url` and the checksum tool disagrees with it. */
  ghost predicate Mismatched(cfg: Config, net: Remote, url: string) {
    exists v, j :: Reaches(cfg, net, v, j)
      && url == EntryUrl(cfg, v, Entries(cfg, net, v)[j])
      && FirstToken(net.digest(url)) != Entries(cfg, net, v)[j].checksum
  }

  /** The pipeline rejects a download exactly when the first approved entry
      of the selected version's verified manifest is fetched from `url` and
      the checksum tool's first token for it differs from the entry's
      checksum; the error names that URL. */
  lemma CheckChecksumMismatchIff(cfg: Config, net: Remote, url: string)
    ensures Check(cfg, net).result == Failure(ChecksumMismatch(url)) <==> Mismatched(cfg, net, url)
  {
    if Check(cfg, net).result == Failure(ChecksumMismatch(url)) {
      CheckMismatchSound(cfg, net, url);
    }
    if Mismatched(cfg, net, url) {
      MismatchedCheckFails(cfg, net, url);
    }
  }

  lemma CheckMismatchSound(cfg: Config, net: Remote, url: string)
    requires Check(cfg, net).result == Failure(ChecksumMismatch(url))
    ensures Mismatched(cfg, net, url)
  {
    var v := SelectedWhenPast(cfg, net);
    assert SignatureMatches(cfg, net, v);
    VerifyAccepts(cfg, net, v);
    var files := ApprovedSignatures(Entries(cfg, net, v), cfg.approveFilename);
    var j := FirstApprovedOf(Entries(cfg, net, v), cfg.approveFilename);
    FetchFirst(net, VersionUrl(cfg.distUrl, v.version), files);
    assert Reaches(cfg, net, v, j);
  }

  lemma MismatchedCheckFails(cfg: Config, net: Remote, url: string)
    requires Mismatched(cfg, net, url)
    ensures Check(cfg, net).result == Failure(ChecksumMismatch(url))
  {
    var v, j :| Reaches(cfg, net, v, j)
      && url == EntryUrl(cfg, v, Entries(cfg, net, v)[j])
      && FirstToken(net.digest(url)) != Entries(cfg, net, v)[j].checksum;
    CheckSelects(cfg, net, v);
    VerifyAccepts(cfg, net, v);
    var files := ApprovedSignatures(Entries(cfg, net, v), cfg.approveFilename);
    ApprovedSignaturesSpec(Entries(cfg, net, v), cfg.approveFilename, Entries(cfg, net, v)[j], j);
    FetchFirst(net, VersionUrl(cfg.distUrl, v.version), files);
  }

  /** Only one file is ever checked: the outcome does not depend on the
      checksum tool's output for any URL other than the one fetched, so every
      approved file after the first, and every file at all when the pipeline
      stops earlier, is ignored. */
  lemma OnlyFetchedFileMatters(cfg: Config, net: Remote, digest: string -> string)
    requires Check(cfg, net).fetched.Some? ==>
      digest(Check(cfg, net).fetched.value) == net.digest(Check(cfg, net).fetched.value)
    ensures Check(cfg, net.(digest := digest)) == Check(cfg, net)
  {
    var net' := net.(digest := digest);
    assert net'.index == net.index && net'.text == net.text && net'.decrypted == net.decrypted;
    var sel := VersionFromDist(net.index(IndexUrl(cfg.distUrl)), cfg.approveVersion, cfg.currentVersion);
    if sel.Some? {
      var v := sel.value;
      assert Check(cfg, net) == Verify(cfg, net, v);
      assert Check(cfg, net') == Verify(cfg, net', v);
      if SignatureMatches(cfg, net, v) {
        VerifyAccepts(cfg, net, v);
        VerifyAccepts(cfg, net', v);
        var files := ApprovedSignatures(Entries(cfg, net, v), cfg.approveFilename);
        assert Entries(cfg, net', v) == Entries(cfg, net, v);
        var versionUrl := VersionUrl(cfg.distUrl, v.version);
        if files != [] {
          FetchFirst(net, versionUrl, files);
          FetchFirst(net', versionUrl, files);
        }
      }
    }
  }

  /** The disposer of the temporary directory, the one action the pipeline
      registers with its cleanup guard. */
  const DisposeWorkDir: Cleanup.ActionId := 0

  /** The `finally` block: finish the guard, and if `finish` throws, its
      exception replaces whatever the body returned or threw. */
  function Guarded(body: Outcome, guard: Cleanup.Guard): (r: (Outcome, Cleanup.Guard))
    ensures r.1.finished
    ensures !guard.finished && guard.todo.Some? ==> r.0 == body && r.1.ran == guard.ran + Cleanup.Queued(guard)
    ensures guard.finished ==> r.0.result == Failure(CleanupFailed(Cleanup.AlreadyFinished)) && r.1 == guard
    ensures !guard.finished && guard.todo.None? ==>
      r.0.result == Failure(CleanupFailed(Cleanup.TodoNotIterable)) && r.1.ran == guard.ran
  {
    var finished := Cleanup.Finish(guard);
    if finished.error.Some? then
      (Outcome(Failure(CleanupFailed(finished.error.value)), body.fetched), finished.guard)
    else
      (body, finished.guard)
  }

  /** On every path the temporary directory's disposer, registered by its
      callback before the `finally` block runs, is run exactly once and the
      body's outcome reaches the callback unchanged. */
  lemma CheckReleasesWorkDir(cfg: Config, net: Remote)
    ensures var r := Guarded(Check(cfg, net), Cleanup.Add(Cleanup.Fresh, DisposeWorkDir));
      r.0 == Check(cfg, net) && r.1.ran == [DisposeWorkDir]
  {
  }

  /** When the body fails before the temporary directory's callback has
      registered anything, `finish` throws on the `null` queue and its
      TypeError is what the caller sees; the disposer then runs when it is
      registered late. */
  lemma EarlyFailureMasked(body: Outcome)
    ensures Guarded(body, Cleanup.Fresh).0.result == Failure(CleanupFailed(Cleanup.TodoNotIterable))
    ensures Cleanup.Add(Guarded(body, Cleanup.Fresh).1, DisposeWorkDir).ran == [DisposeWorkDir]
  {
  }
}
