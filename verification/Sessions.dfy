/** Writer and reader put together over real buffers: the contracts of the two
    methods are enough for the promise the library makes about the pair. */
module Sessions {
  import opened Wire
  import opened Format
  import opened Memory
  import opened Primitives
  import opened Container
  import opened Runs
  import opened Decoding
  import Encrypt
  import Decrypt

  /** Encrypt, keep the first `fileSize` bytes, decrypt them with the same key.
      Unless the machine fails, the second call succeeds and gives the input back. */
  method EncryptThenDecrypt(aead: Aead, source: RandomSource, m: Machine, key: array<byte>, opts: Options,
                            input: array?<byte>, inSize: nat, file: SecureBuffer, fileSize: SizeCell,
                            back: SecureBuffer, backSize: SizeCell)
    returns (written: Status, read: Status)
    requires Lawful(aead.suite) && m.sizeMax >= UINT32_MAX && AllWiped(m.heap)
    requires input != null ==> inSize == input.Length
    requires file.Valid() && back.Valid() && file != back && fileSize != backSize
    requires file.data == null && back.data == null
    modifies aead`log, source`used, m, file, fileSize, back, backSize
    ensures written == OK ==> read == OK || read == MEMORY || read == CRYPTO
    ensures written == OK && Clean(m.trace) ==> read == OK
    ensures written == OK && read == OK ==> back.Contents() == old(Encrypt.InputBytes(input)) && backSize.value == inSize
    ensures read != OK ==> back.data == null
  {
    hide Lawful, ValidRun, LogOf, FileOf, AllWiped, Clean, Blamed, ParseHeader, Decoding.Decrypt, HeaderBytes, LogFrom, FileFor,
         Decrypt.Safe, Decrypt.PlanFor, Decrypt.PreAuth, Decrypt.PreAuthBudget, Decrypt.HasOpened, HeaderMalformed,
         HeaderUnsupported, HeaderTooLarge, ChosenByDeflate, Encrypt.Expected, Encrypt.FinalSize, Encrypt.Draws,
         Encrypt.WorkingSet, Encrypt.Shrinking, Encrypt.Accounts, ChunkCountFor, ValidateOptions, Decrypt.Explains;
    ghost var run;
    written, run := Encrypt.EncryptBuffer(aead, source, m, key, opts, input, inSize, file, fileSize);
    read := INVALID_ARG;
    if written != OK {
      return;
    }
    assert Encrypt.Refusal(key, opts, input, inSize) == OK;
    var bytes := new byte[fileSize.value](_ => 0);
    CopyIn(bytes, 0, file.data[..fileSize.value]);
    assert bytes[..] == bytes[0..fileSize.value];
    read := Decrypt.DecryptBuffer(aead, m, key, bytes, back, backSize, []);
    OwnFileDecrypts(aead.suite, aead.log, run, key[..]);
    PlainFits(aead.suite, run, m.sizeMax);
    ReadBack(aead.suite, aead.log, key[..], bytes[..], read, back.Contents(), run.plain, m.sizeMax, m.trace);
  }

  lemma PlainFits(p: Suite, r: Run, sizeMax: nat)
    requires Admissible(r) && exists t :: Encrypt.Accounts(p, r, OK, t, sizeMax)
    ensures |r.plain| <= sizeMax
  {
  }

  /** Input that has to decrypt to `plain` does, or the machine failed. */
  lemma ReadBack(p: Suite, log: seq<SealRecord>, key: Bytes, s: Bytes, rc: Status, found: Bytes, plain: Bytes, sizeMax: nat,
                 t: seq<Event>)
    requires Decrypt.Explains(p, log, key, s, rc, found, sizeMax, t)
    requires Decoding.Decrypt(p, log, key, s) == Ok(plain) && |plain| <= sizeMax
    requires ParseHeader(s).Ok? && ParseHeader(s).value.plaintextSize == |plain|
    ensures rc == OK || rc == MEMORY || rc == CRYPTO
    ensures Clean(t) ==> rc == OK
    ensures rc == OK ==> found == plain
  {
    hide Clean, Blamed, ParseHeader, Decoding.Decrypt;
    CleanIsNotBlamed(t);
  }

  /** What the reader owes to a file whose seals are all in the log. */
  lemma OwnFileDecrypts(p: Suite, log: seq<SealRecord>, r: Run, key: Bytes)
    requires Lawful(p) && Complete(p, r) && key == r.key
    requires |log| >= |LogOf(p, r)| && log[|log| - |LogOf(p, r)|..] == LogOf(p, r)
    ensures Decoding.Decrypt(p, log, key, FileOf(p, r)) == Ok(r.plain)
    ensures ParseHeader(FileOf(p, r)).Ok? && ParseHeader(FileOf(p, r)).value.plaintextSize == |r.plain|
  {
    forall j: u32 | j < |r.streams| ensures SealOf(p, r, j) in log {
      assert log[|log| - |LogOf(p, r)|..][j] == LogOf(p, r)[j];
    }
    RoundTrip(p, log, r, key);
    FileParses(p, r);
  }

  // ---- Any number of encryptions, then an adversary ----

  /** The arguments of one call of EncryptBuffer. */
  datatype Request = Request(key: array?<byte>, opts: Options, input: array?<byte>)
  {
    function Size(): nat {
      if input == null then 0 else input.Length
    }

    /** The run came of this request. */
    ghost predicate Asked(r: Run)
      reads key, input
    {
      key != null && r.key == key[..] && r.opts == opts && r.plain == Encrypt.InputBytes(input)
    }
  }

  ghost predicate CameOf(requests: seq<Request>, r: Run)
    reads set q | q in requests :: q.key, set q | q in requests :: q.input
  {
    exists q :: q in requests && q.Asked(r)
  }

  /** One of the runs finished this file. */
  ghost predicate FinishedBy(p: Suite, runs: seq<Run>, file: Bytes) {
    exists r :: r in runs && Complete(p, r) && file == FileOf(p, r)
  }

  lemma StillFinished(p: Suite, runs: seq<Run>, more: seq<Run>, file: Bytes)
    requires FinishedBy(p, runs, file)
    ensures FinishedBy(p, runs + more, file)
  {
    var r :| r in runs && Complete(p, r) && file == FileOf(p, r);
    assert r in runs + more;
  }

  /** Where in the random source each run drew its salt and nonce prefix: one
      after the other, between `from` and `to`. */
  ghost predicate DrawnInTurn(source: RandomSource, runs: seq<Run>, at: seq<nat>, from: nat, to: nat) {
    && |at| == |runs|
    && (forall i | 0 <= i < |runs| :: Encrypt.DrawnAt(runs[i], source, at[i]) && from <= at[i] && at[i] + 24 <= to)
    && (forall i, j | 0 <= i < j < |runs| :: at[i] + 24 <= at[j])
    && from <= to
  }

  /** The source does not give the same 24 bytes twice between `from` and `to`. */
  ghost predicate NeverRepeats(source: RandomSource, from: nat, to: nat) {
    forall i: nat, j: nat | from <= i && i + 24 <= j && j + 24 <= to :: source.BytesAt(i, 24) != source.BytesAt(j, 24)
  }

  /** Draws that do not repeat make every header of the runs distinct. */
  lemma DrawsGiveDistinctHeaders(source: RandomSource, runs: seq<Run>, at: seq<nat>, from: nat, to: nat)
    requires DrawnInTurn(source, runs, at, from, to) && NeverRepeats(source, from, to)
    requires forall r | r in runs :: Admissible(r)
    ensures DistinctHeaders(runs)
  {
    hide Admissible;
    forall r, r' | r in runs && r' in runs && r.salt == r'.salt && r.noncePrefix == r'.noncePrefix ensures r == r' {
      var i :| 0 <= i < |runs| && runs[i] == r;
      var j :| 0 <= j < |runs| && runs[j] == r';
      SameDraw(source, r, at[i]);
      SameDraw(source, r', at[j]);
    }
    FreshDrawsGiveDistinctHeaders(runs);
  }

  lemma SameDraw(source: RandomSource, r: Run, at: nat)
    requires Encrypt.DrawnAt(r, source, at)
    ensures source.BytesAt(at, 24) == r.salt + r.noncePrefix
  {
  }

  lemma OneMoreDraw(source: RandomSource, runs: seq<Run>, at: seq<nat>, from: nat, to: nat, r: Run, to': nat)
    requires DrawnInTurn(source, runs, at, from, to) && Encrypt.DrawnAt(r, source, to) && to' == to + 24
    ensures DrawnInTurn(source, runs + [r], at + [to], from, to')
  {
    var all, ats := runs + [r], at + [to];
    forall i | 0 <= i < |all| ensures Encrypt.DrawnAt(all[i], source, ats[i]) && from <= ats[i] && ats[i] + 24 <= to' {
      if i < |runs| {
        assert Encrypt.DrawnAt(runs[i], source, at[i]);
      }
    }
  }

  /** One call: its run, if it sealed anything, joins those that account for the
      log, and its file, if there is one, is that run's. */
  method EncryptOne(aead: Aead, source: RandomSource, m: Machine, q: Request, ghost runs: seq<Run>)
    returns (file: Option<Bytes>, ghost more: seq<Run>)
    requires Lawful(aead.suite) && AllWiped(m.heap) && LogFrom(aead.suite, aead.log, runs)
    modifies aead`log, source`used, m
    ensures AllWiped(m.heap) && Live(m) == old(Live(m)) && LogFrom(aead.suite, aead.log, runs + more)
    ensures forall r | r in more :: q.Asked(r)
    ensures file.Some? ==> FinishedBy(aead.suite, more, file.value)
    ensures source.used >= old(source.used)
    ensures more == [] ||
      (|more| == 1 && Encrypt.DrawnAt(more[0], source, old(source.used)) && source.used == old(source.used) + 24)
  {
    hide Lawful, ValidRun, LogOf, FileOf, AllWiped, LogFrom, ChosenByDeflate, Encrypt.Accounts, Encrypt.Expected, Clean,
         HeaderBytes, ValidateOptions, Encrypt.FinalSize, Encrypt.DrawnAt, Encrypt.WorkingSet, Encrypt.Shrinking;
    var out := new SecureBuffer();
    var outSize := new SizeCell();
    ghost var log := aead.log;
    var rc;
    ghost var run;
    rc, run := Encrypt.EncryptBuffer(aead, source, m, q.key, q.opts, q.input, q.Size(), out, outSize);
    more := [];
    assert runs + [] == runs;
    if Encrypt.Refusal(q.key, q.opts, q.input, q.Size()) == OK {
      if run.streams == [] {
        NoSeals(aead.suite, log, run);
      } else {
        LogGrows(aead.suite, log, runs, run);
        more := [run];
      }
    }
    file := None;
    if rc == OK {
      SomeSeals(aead.suite, run);
      file := Some(out.data[..outSize.value]);
      assert run in more;
    }
    out.WipeAndFree(m);
  }

  lemma NoSeals(p: Suite, log: seq<SealRecord>, r: Run)
    requires ValidRun(p, r) && r.streams == []
    ensures log + LogOf(p, r) == log
  {
  }

  lemma SomeSeals(p: Suite, r: Run)
    requires Complete(p, r)
    ensures r.streams != []
  {
    ChunkCountExact(|r.plain|, r.opts.chunkSize);
  }

  /** Any number of calls, refused, failing and successful ones. */
  method EncryptMany(aead: Aead, source: RandomSource, m: Machine, requests: seq<Request>)
    returns (files: seq<Bytes>, ghost runs: seq<Run>)
    requires Lawful(aead.suite) && AllWiped(m.heap) && aead.log == []
    modifies aead`log, source`used, m
    ensures AllWiped(m.heap) && Live(m) == old(Live(m)) && LogFrom(aead.suite, aead.log, runs)
    ensures forall r | r in runs :: CameOf(requests, r)
    ensures forall f | f in files :: FinishedBy(aead.suite, runs, f)
    ensures forall r | r in runs :: Admissible(r)
    ensures NeverRepeats(source, old(source.used), source.used) ==> DistinctHeaders(runs)
  {
    hide Lawful, AllWiped, LogFrom, FinishedBy, DrawnInTurn, NeverRepeats, DistinctHeaders, Encrypt.DrawnAt, Admissible;
    files, runs := [], [];
    ghost var at: seq<nat>, from := [], source.used;
    EmptyLog(aead.suite);
    NothingDrawn(source, from);
    for k := 0 to |requests|
      invariant AllWiped(m.heap) && Live(m) == old(Live(m)) && LogFrom(aead.suite, aead.log, runs)
      invariant forall r | r in runs :: CameOf(requests, r)
      invariant forall f | f in files :: FinishedBy(aead.suite, runs, f)
      invariant DrawnInTurn(source, runs, at, from, source.used)
    {
      var file;
      ghost var more, before := [], source.used;
      file, more := EncryptOne(aead, source, m, requests[k], runs);
      forall f | f in files ensures FinishedBy(aead.suite, runs + more, f) {
        StillFinished(aead.suite, runs, more, f);
      }
      if file.Some? {
        FinishedAmong(aead.suite, runs, more, file.value);
        files := files + [file.value];
      }
      if more == [] {
        LaterIsFine(source, runs, at, from, before, source.used);
        assert runs + more == runs;
      } else {
        OneMoreDraw(source, runs, at, from, before, more[0], source.used);
        at := at + [before];
        assert more == [more[0]];
      }
      runs := runs + more;
    }
    RunsAreValid(aead.suite, aead.log, runs);
    if NeverRepeats(source, from, source.used) {
      DrawsGiveDistinctHeaders(source, runs, at, from, source.used);
    }
  }

  lemma NothingDrawn(source: RandomSource, from: nat)
    ensures DrawnInTurn(source, [], [], from, from)
  {
  }

  lemma LaterIsFine(source: RandomSource, runs: seq<Run>, at: seq<nat>, from: nat, to: nat, to': nat)
    requires DrawnInTurn(source, runs, at, from, to) && to <= to'
    ensures DrawnInTurn(source, runs, at, from, to')
  {
  }

  lemma FinishedAmong(p: Suite, runs: seq<Run>, more: seq<Run>, file: Bytes)
    requires FinishedBy(p, more, file)
    ensures FinishedBy(p, runs + more, file)
  {
    var r :| r in more && Complete(p, r) && file == FileOf(p, r);
    assert r in runs + more;
  }

  /** The adversary sees every file that was handed out and answers with any
      bytes it likes.  As long as the random source has not repeated itself, what
      is accepted is, byte for byte, a file one of the requests finished, and
      comes out as that request's plaintext; and a file that was finished under
      the same cipher key is accepted unless the machine fails or cannot hold its
      plaintext. */
  method DecryptForAdversary(aead: Aead, source: RandomSource, m: Machine, requests: seq<Request>,
                             adversary: seq<Bytes> -> Bytes, key: array<byte>, out: SecureBuffer, outSize: SizeCell)
    returns (rc: Status, files: seq<Bytes>, ghost runs: seq<Run>)
    requires Lawful(aead.suite) && m.sizeMax >= UINT32_MAX && AllWiped(m.heap) && aead.log == []
    requires out.Valid() && out.data == null
    modifies aead`log, source`used, m, out, outSize
    ensures forall f | f in files :: FinishedBy(aead.suite, runs, f)
    ensures forall r | r in runs :: CameOf(requests, r)
    ensures rc != Status.COMPRESS
    ensures NeverRepeats(source, old(source.used), source.used) && rc == OK ==>
      exists r :: r in runs && FileFor(aead.suite, r, key[..], adversary(files)) && r.plain == out.Contents()
    ensures forall r | r in runs && FileFor(aead.suite, r, key[..], adversary(files)) && key.Length >= MIN_KEY_SIZE ::
      Clean(m.trace) && |r.plain| <= m.sizeMax ==> rc == OK && out.Contents() == r.plain
  {
    hide Lawful, AllWiped, LogFrom, FinishedBy, FileOf, Decoding.Decrypt, Decrypt.Safe, Decrypt.PlanFor, Decrypt.PreAuth,
         Clean, Blamed, StreamOk, HeaderBytes, ParseHeader, ValidateOptions, NeverRepeats, HeaderMalformed, HeaderUnsupported,
         HeaderTooLarge, Decrypt.PreAuthBudget, Decrypt.HasOpened, Decrypt.Explains, FileFor, DistinctHeaders, ValidRun;
    files, runs := EncryptMany(aead, source, m, requests);
    var answer := adversary(files);
    var input := new byte[|answer|](_ => 0);
    CopyIn(input, 0, answer);
    assert input[..] == input[0..|answer|];
    rc := Decrypt.DecryptBuffer(aead, m, key, input, out, outSize, runs);
    forall r | r in runs && FileFor(aead.suite, r, key[..], answer) && key.Length >= MIN_KEY_SIZE
               && Clean(m.trace) && |r.plain| <= m.sizeMax
      ensures rc == OK && out.Contents() == r.plain
    {
      FinishedDecrypts(aead.suite, aead.log, runs, r, key[..], answer);
      ReadBack(aead.suite, aead.log, key[..], answer, rc, out.Contents(), r.plain, m.sizeMax, m.trace);
    }
  }

  lemma FinishedDecrypts(p: Suite, log: seq<SealRecord>, runs: seq<Run>, r: Run, key: Bytes, s: Bytes)
    requires Lawful(p) && LogFrom(p, log, runs) && r in runs && FileFor(p, r, key, s) && |key| >= MIN_KEY_SIZE
    ensures Decoding.Decrypt(p, log, key, s) == Ok(r.plain)
    ensures ParseHeader(s).Ok? && ParseHeader(s).value.plaintextSize == |r.plain|
  {
    hide Lawful, LogFrom, FileOf, Decoding.Decrypt, StreamOk, ParseHeader;
    RunIsLogged(p, log, runs, r);
    RoundTrip(p, log, r, key);
    FileParses(p, r);
    Decrypt.HeaderParsed(s, HeaderOf(r), ChunksOf(p, r));
  }

  lemma RunsAreValid(p: Suite, log: seq<SealRecord>, runs: seq<Run>)
    requires LogFrom(p, log, runs)
    ensures forall r | r in runs :: ValidRun(p, r) && Admissible(r)
  {
  }
}
