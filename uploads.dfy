/** The image directory and the `POST /upload` handler: validate the payload, strip the
    data-URI prefix, decode, write the file, prune old images, relay, respond. */
module Uploads {
  import opened Common
  import opened Order
  import opened Names
  import opened Telegram

  type Bytes = seq<bv8>

  /** The contents of the image directory: file name to file contents. */
  type Files = map<string, Bytes>

  /** How many `.jpg` files pruning keeps. */
  const Retain := 10

  /** The message of the `ReferenceError` raised by the undeclared `UploadsDir`. */
  const ReferenceErrorText := "UploadsDir is not defined"

  ghost function JpgNames(files: Files): set<string>
  {
    set n | n in files && IsJpg(n)
  }

  /** `files.slice(0, files.length - 10)` when there are more than ten names, else nothing. */
  function ToDelete(sorted: seq<string>): (r: seq<string>)
    ensures r <= sorted
    ensures |sorted| - |r| == if |sorted| > Retain then Retain else |sorted|
  {
    if |sorted| > Retain then sorted[..|sorted| - Retain] else []
  }

  /** The `.jpg` names that pruning selects in a directory. */
  ghost function Doomed(files: Files): set<string>
  {
    Elems(ToDelete(Ascending(JpgNames(files))))
  }

  /** On an ascending listing, the names `ToDelete` leaves are exactly the suffix after it. */
  lemma {:induction false} SelectionLeavesSuffix(s: seq<string>)
    requires Sorted(s)
    ensures Elems(s) - Elems(ToDelete(s)) == Elems(s[|ToDelete(s)|..])
  {
    var m := |ToDelete(s)|;
    assert ToDelete(s) == s[..m];
    forall x | x in Elems(s[m..]) ensures x !in Elems(s[..m]) {
      var j :| m <= j < |s| && s[j] == x;
      if x in s[..m] {
        var i :| 0 <= i < m && s[i] == x;
        BelowIrreflexive(x);
        assert false;
      }
    }
    assert s == s[..m] + s[m..];
  }

  /** On an ascending listing, `ToDelete` leaves the ten greatest names (all of them when
      there are at most ten), and every name it selects sorts before every name it leaves. */
  lemma {:induction false} SelectionKeepsNewest(s: seq<string>)
    requires Sorted(s)
    ensures ToDelete(s) == [] <==> |s| <= Retain
    ensures |Elems(s) - Elems(ToDelete(s))| == if |s| <= Retain then |s| else Retain
    ensures forall d, k :: d in Elems(ToDelete(s)) && k in Elems(s) - Elems(ToDelete(s)) ==> Below(d, k)
  {
    var m := |ToDelete(s)|;
    assert ToDelete(s) == s[..m];
    SelectionLeavesSuffix(s);
    forall i, j | 0 <= i < j < |s[m..]| ensures s[m..][i] != s[m..][j] {
      BelowIrreflexive(s[m + i]);
    }
    DistinctCard(s[m..]);
    forall d, k | d in Elems(ToDelete(s)) && k in Elems(s) - Elems(ToDelete(s)) ensures Below(d, k) {
      var i :| 0 <= i < m && s[i] == d;
      assert k in Elems(s[m..]);
      var j :| m <= j < |s| && s[j] == k;
    }
  }

  /** Pruning selects nothing exactly while there are at most ten `.jpg` names. */
  lemma DoomedEmpty(files: Files)
    ensures Doomed(files) == {} <==> |JpgNames(files)| <= Retain
  {
    var s := Ascending(JpgNames(files));
    SelectionKeepsNewest(s);
    if ToDelete(s) != [] {
      assert ToDelete(s)[0] in Elems(ToDelete(s));
    }
  }

  /** Pruning selects only `.jpg` names, the oldest ones, and leaves the newest ten (all of
      them when there are at most ten). */
  lemma DoomedAreOldest(files: Files)
    ensures Doomed(files) <= JpgNames(files)
    ensures |JpgNames(files) - Doomed(files)| == if |JpgNames(files)| <= Retain then |JpgNames(files)| else Retain
    ensures forall d, k :: d in Doomed(files) && k in JpgNames(files) - Doomed(files) ==> Below(d, k)
  {
    var s := Ascending(JpgNames(files));
    assert Elems(s) == JpgNames(files);
    SelectionKeepsNewest(s);
  }

  /** Whatever order the directory is listed in, pruning selects `Doomed`. */
  lemma ListingSelectsDoomed(files: Files, listing: seq<string>)
    requires Distinct(listing)
    requires forall n :: n in listing <==> n in files
    ensures Elems(ToDelete(SortNames(FilterJpg(listing)))) == Doomed(files)
  {
    SortListingIsAscending(FilterJpg(listing), JpgNames(files));
  }

  /** The image directory, which the handler changes in place. */
  class Directory {
    var files: Files

    /** `fs.writeFileSync`: creates or overwrites one file. */
    method Write(name: string, data: Bytes)
      modifies this
      ensures files == old(files)[name := data]
    {
      files := files[name := data];
    }

    /** `fs.readdirSync`: every entry once, in an order the file system chooses. */
    method ReadDir() returns (names: seq<string>)
      ensures Distinct(names)
      ensures forall n :: n in names <==> n in files
    {
      names := [];
      var rest := files.Keys;
      while rest != {}
        invariant rest <= files.Keys
        invariant Distinct(names)
        invariant forall n :: n in names <==> n in files && n !in rest
        decreases rest
      {
        var n :| n in rest;
        names := names + [n];
        rest := rest - {n};
      }
    }

    /** The `for ... of` loop over the selected names. As written, its first iteration
        evaluates `path.join(UploadsDir, oldFile)`, names the undeclared `UploadsDir` and
        throws before anything is removed. */
    method RemoveEach(victims: seq<string>, build: Build) returns (fault: Option<string>)
      modifies this
      ensures build == AsWritten ==> files == old(files)
      ensures build == AsWritten ==> fault == if victims == [] then None else Some(ReferenceErrorText)
      ensures build == Corrected ==> fault == None && files == old(files) - Elems(victims)
    {
      var i := 0;
      while i < |victims|
        invariant 0 <= i <= |victims|
        invariant build == AsWritten ==> i == 0
        invariant files == old(files) - Elems(victims[..i])
      {
        if build == AsWritten {
          return Some(ReferenceErrorText);
        }
        ElemsPrefixStep(victims, i);
        files := files - {victims[i]};
        i := i + 1;
      }
      assert victims[..i] == victims;
      fault := None;
    }

    /** Retention: list the `.jpg` files, sort them, and delete all but the last ten. */
    method Prune(build: Build) returns (fault: Option<string>)
      modifies this
      ensures build == AsWritten ==> files == old(files)
      ensures build == AsWritten ==> fault == if Doomed(old(files)) == {} then None else Some(ReferenceErrorText)
      ensures build == Corrected ==> fault == None && files == old(files) - Doomed(old(files))
    {
      var listing := ReadDir();
      var victims := ToDelete(SortNames(FilterJpg(listing)));
      ListingSelectsDoomed(files, listing);
      assert victims != [] ==> victims[0] in Elems(victims);
      fault := RemoveEach(victims, build);
    }
  }

  /** The `photoData` field of the request body: absent or falsy (`undefined`, `null`,
      `false`, `0`), a string, or a truthy value that is not a string. */
  datatype Photo = Absent | Text(value: string) | NonText

  /** The status code and the JSON body `{success, message}` or `{success, error}`. */
  datatype Response = Response(status: nat, success: bool, text: string)

  const NoPhotoText := "Nenhuma foto enviada"
  /** What a non-string `photoData` raises at `.replace`. */
  const NotAFunctionText := "photoData.replace is not a function"

  const BadRequest := Response(400, false, NoPhotoText)

  function Saved(filename: string): Response
  {
    Response(200, true, "Foto salva como " + filename)
  }

  function ServerError(message: string): Response
  {
    Response(500, false, "Erro ao processar foto: " + message)
  }

  /** What the handler gets from outside: the clock (`Date.now()`), the base64 decoder
      (`Buffer.from`, left uninterpreted), whether the write throws and with what message,
      and the reply each relay attempt would see. */
  datatype Env = Env(now: nat, decode: string -> Bytes, writeFault: Option<string>, replies: seq<Reply>)

  /** The response, the directory afterwards, and the relay run if there was one. */
  datatype Outcome = Outcome(response: Response, files: Files, relay: Option<Trace>)

  /** `!photoData` */
  predicate IsMissing(photo: Photo)
  {
    photo.Absent? || photo == Text("")
  }

  /** The directory right after the write. */
  function Stored(files: Files, photo: Photo, env: Env): Files
    requires photo.Text?
  {
    files[FileName(env.now) := env.decode(StripPrefix(photo.value))]
  }

  /** The handler, step by step. */
  ghost function Upload(files: Files, photo: Photo, env: Env, build: Build): Outcome
    requires |env.replies| == MaxAttempts
  {
    if IsMissing(photo) then Outcome(BadRequest, files, None)
    else if photo.NonText? then Outcome(ServerError(NotAFunctionText), files, None)
    else if env.writeFault.Some? then Outcome(ServerError(env.writeFault.value), files, None)
    else
      var written := Stored(files, photo, env);
      if build == AsWritten && Doomed(written) != {} then Outcome(ServerError(ReferenceErrorText), written, None)
      else
        var pruned := if build == Corrected then written - Doomed(written) else written;
        var t := Relay(env.replies);
        match Settle(t.exit, build)
        case Resolved => Outcome(Saved(FileName(env.now)), pruned, Some(t))
        case Rejected(message) => Outcome(ServerError(message), pruned, Some(t))
  }

  /** `app.post('/upload', ...)` against the image directory `dir`. */
  method HandleUpload(dir: Directory, photo: Photo, env: Env, build: Build) returns (response: Response, relay: Option<Trace>)
    requires |env.replies| == MaxAttempts
    modifies dir
    ensures Outcome(response, dir.files, relay) == Upload(old(dir.files), photo, env, build)
  {
    relay := None;
    if IsMissing(photo) {
      return BadRequest, None;
    }
    if photo.NonText? {
      return ServerError(NotAFunctionText), None;
    }
    var base64Data := StripPrefix(photo.value);
    var buffer := env.decode(base64Data);
    var filename := FileName(env.now);
    if env.writeFault.Some? {
      return ServerError(env.writeFault.value), None;
    }
    dir.Write(filename, buffer);
    var fault := dir.Prune(build);
    if fault.Some? {
      return ServerError(fault.value), None;
    }
    var t := SendToTelegram(env.replies);
    relay := Some(t);
    match Settle(t.exit, build) {
      case Resolved => response := Saved(filename);
      case Rejected(message) => response := ServerError(message);
    }
  }

  /** A payload that reaches the write step. */
  predicate Accepted(photo: Photo, env: Env)
  {
    photo.Text? && photo.value != "" && env.writeFault.None?
  }

  /** Status 400 exactly for a missing or empty payload, and then nothing is written,
      pruned or relayed; 200 exactly when the response reports success; 500 otherwise. */
  lemma StatusMapping(files: Files, photo: Photo, env: Env, build: Build)
    requires |env.replies| == MaxAttempts
    ensures var o := Upload(files, photo, env, build);
      && (o.response.status == 400 <==> IsMissing(photo))
      && (o.response.status == 400 ==> o == Outcome(BadRequest, files, None))
      && (o.response.status == 200 <==> o.response.success)
      && (o.response.status == 200 || o.response.status == 400 || o.response.status == 500)
  {
  }

  /** The response reports success exactly when the payload was written, pruning did not
      throw and the relay resolved; the message then names the stored file. */
  lemma SuccessIffEveryStepCompletes(files: Files, photo: Photo, env: Env, build: Build)
    requires |env.replies| == MaxAttempts
    ensures var o := Upload(files, photo, env, build);
      o.response.success <==>
        Accepted(photo, env)
        && (build == Corrected || |JpgNames(Stored(files, photo, env))| <= Retain)
        && Settle(Relay(env.replies).exit, build) == Resolved
    ensures var o := Upload(files, photo, env, build);
      o.response.success ==> o.response.text == "Foto salva como " + FileName(env.now)
    ensures var o := Upload(files, photo, env, build);
      o.relay.Some? <==>
        Accepted(photo, env) && (build == Corrected || |JpgNames(Stored(files, photo, env))| <= Retain)
  {
    if Accepted(photo, env) {
      DoomedEmpty(Stored(files, photo, env));
    }
  }

  /** As written, once the write leaves more than ten `.jpg` files the request fails with
      the `ReferenceError`, nothing is deleted and the relay is never called. */
  lemma AsWrittenPruneThrows(files: Files, photo: Photo, env: Env)
    requires |env.replies| == MaxAttempts
    requires Accepted(photo, env) && |JpgNames(Stored(files, photo, env))| > Retain
    ensures Upload(files, photo, env, AsWritten) ==
      Outcome(ServerError(ReferenceErrorText), Stored(files, photo, env), None)
  {
    DoomedEmpty(Stored(files, photo, env));
  }

  /** As written, a directory holding ten or more `.jpg` files never recovers: every
      later upload under a new name is stored, fails with status 500 and is not relayed. */
  lemma AsWrittenNeverRecovers(files: Files, photo: Photo, env: Env)
    requires |env.replies| == MaxAttempts
    requires Accepted(photo, env) && |JpgNames(files)| >= Retain && FileName(env.now) !in files
    ensures var o := Upload(files, photo, env, AsWritten);
      o.response.status == 500 && o.relay == None
      && JpgNames(o.files) == JpgNames(files) + {FileName(env.now)}
      && |JpgNames(o.files)| == |JpgNames(files)| + 1
  {
    var written := Stored(files, photo, env);
    assert JpgNames(written) == JpgNames(files) + {FileName(env.now)};
    AsWrittenPruneThrows(files, photo, env);
  }

  /** As written, every failure after the write leaves the directory exactly as the write
      made it: the new file stays, nothing is rolled back or deleted. */
  lemma AsWrittenKeepsStoredFile(files: Files, photo: Photo, env: Env)
    requires |env.replies| == MaxAttempts
    requires Accepted(photo, env)
    ensures var o := Upload(files, photo, env, AsWritten);
      o.files == Stored(files, photo, env)
      && FileName(env.now) in o.files
      && o.files[FileName(env.now)] == env.decode(StripPrefix(photo.value))
  {
  }

  /** Removing `.jpg` names from a directory removes them from its `.jpg` names and
      touches nothing else. */
  lemma RemoveJpgs(files: Files, gone: set<string>)
    requires gone <= JpgNames(files)
    ensures JpgNames(files - gone) == JpgNames(files) - gone
    ensures forall n :: n in files && !IsJpg(n) ==> n in files - gone
    ensures forall n :: n in files - gone ==> n in files && (files - gone)[n] == files[n]
  {
  }

  /** A `.jpg` name that sorts after every other one is never selected for deletion. */
  lemma GreatestNotDoomed(files: Files, newest: string)
    requires newest in JpgNames(files)
    requires forall n :: n in JpgNames(files) && n != newest ==> Below(n, newest)
    ensures newest !in Doomed(files)
  {
    var s := Ascending(JpgNames(files));
    var m := |ToDelete(s)|;
    assert ToDelete(s) == s[..m];
    if newest in ToDelete(s) {
      var i :| 0 <= i < m && s[i] == newest;
      var last := s[|s| - 1];
      assert last in JpgNames(files);
      assert Below(newest, last);
      BelowIrreflexive(newest);
      assert last != newest;
      BelowAsymmetric(newest, last);
      assert false;
    }
  }

  /** Corrected, the directory after an accepted upload is the written one less the names
      pruning selects. */
  lemma CorrectedPrunes(files: Files, photo: Photo, env: Env)
    requires |env.replies| == MaxAttempts
    requires Accepted(photo, env)
    ensures Upload(files, photo, env, Corrected).files == Stored(files, photo, env) - Doomed(Stored(files, photo, env))
  {
    var written := Stored(files, photo, env);
    var pruned := written - Doomed(written);
    match Settle(Relay(env.replies).exit, Corrected)
    case Resolved =>
      assert Upload(files, photo, env, Corrected) == Outcome(Saved(FileName(env.now)), pruned, Some(Relay(env.replies)));
    case Rejected(message) =>
      assert Upload(files, photo, env, Corrected) == Outcome(ServerError(message), pruned, Some(Relay(env.replies)));
  }

  /** Corrected, pruning leaves the ten greatest `.jpg` names (all, when there are at most
      ten), removes only names that sort before every kept one, and leaves other files and
      every file's contents alone. */
  lemma CorrectedKeepsNewestTen(files: Files, photo: Photo, env: Env)
    requires |env.replies| == MaxAttempts
    requires Accepted(photo, env)
    ensures var o := Upload(files, photo, env, Corrected);
      var written := Stored(files, photo, env);
      && JpgNames(o.files) <= JpgNames(written)
      && |JpgNames(o.files)| == (if |JpgNames(written)| <= Retain then |JpgNames(written)| else Retain)
      && (forall d, k :: d in JpgNames(written) - JpgNames(o.files) && k in JpgNames(o.files) ==> Below(d, k))
      && (forall n :: n in written && !IsJpg(n) ==> n in o.files)
      && (forall n :: n in o.files ==> n in written && o.files[n] == written[n])
  {
    var written := Stored(files, photo, env);
    var doomed := Doomed(written);
    CorrectedPrunes(files, photo, env);
    assert JpgNames(written - doomed) == JpgNames(written) - doomed by {
      DoomedAreOldest(written);
      RemoveJpgs(written, doomed);
    }
    assert JpgNames(written) - (JpgNames(written) - doomed) == doomed;
    DoomedAreOldest(written);
    RemoveJpgs(written, doomed);
  }

  /** Corrected, an upload whose name sorts after every other stored `.jpg` (the clock
      moved on) survives pruning, whatever the relay does. */
  lemma CorrectedKeepsNewUpload(files: Files, photo: Photo, env: Env)
    requires |env.replies| == MaxAttempts
    requires Accepted(photo, env)
    requires forall n :: n in JpgNames(files) && n != FileName(env.now) ==> Below(n, FileName(env.now))
    ensures var o := Upload(files, photo, env, Corrected);
      FileName(env.now) in o.files && o.files[FileName(env.now)] == env.decode(StripPrefix(photo.value))
  {
    var written := Stored(files, photo, env);
    var name := FileName(env.now);
    CorrectedPrunes(files, photo, env);
    assert name !in Doomed(written) by {
      assert JpgNames(written) == JpgNames(files) + {name};
      GreatestNotDoomed(written, name);
    }
    assert written[name] == env.decode(StripPrefix(photo.value));
  }

  /** The gallery lists every stored `.jpg` file once, so the page shows as many images as
      the directory holds. */
  lemma GalleryShowsEveryImage(files: Files, listing: seq<string>)
    requires Distinct(listing)
    requires forall n :: n in listing <==> n in files
    ensures |GalleryPaths(listing)| == |JpgNames(files)|
    ensures forall n :: n in JpgNames(files) ==> StaticPrefix + n in GalleryPaths(listing)
  {
    GalleryPathsAreJpgs(listing);
    var jpgs := FilterJpg(listing);
    assert Elems(jpgs) == JpgNames(files);
    DistinctCard(jpgs);
    forall n | n in JpgNames(files) ensures StaticPrefix + n in GalleryPaths(listing) {
      var i :| 0 <= i < |jpgs| && jpgs[i] == n;
      assert GalleryPaths(listing)[i] == StaticPrefix + n;
    }
  }
}
