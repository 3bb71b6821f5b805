// LFS objects and their metadata rows (LfsUpload and LfsVerify in component/git_http.go,
// the LFS branch of CreateFile and UpdateFile in component/repo.go, bodies put directly by
// multipart completion or a signed link, and the validating upload in builder/store/s3/minio.go). Every store operation is a
// step of its own, so requests interleave and may be cut off between two of them.
module LfsObjects {

  type Content = seq<int>

  // Objects of a repository that is not migrated are shared by oid; a migrated one has
  // its own directory.
  datatype ObjectKey = Shared(oid: string) | Own(repo: int, oid: string)

  // hash stands for SHA-256; migrated tells which repositories are.
  datatype Config = Config(hash: Content -> string, migrated: int -> bool) {
    function KeyOf(repo: int, oid: string): ObjectKey {
      if migrated(repo) then Own(repo, oid) else Shared(oid)
    }
  }

  // body stands for the bytes that arrive in the store, which takes no more than size.
  datatype Upload = Upload(repo: int, oid: string, size: int, body: Content)

  // Absent: no object was there, the upload goes on. Checked: the body is at the
  // temporary key and passed the check. Leaving: only the temporary object is still to be
  // removed.
  datatype Phase = Begin | Absent | Checked | Leaving | Finished

  datatype Thread = Thread(u: Upload, phase: Phase)

  datatype MetaRow = MetaRow(repo: int, oid: string, size: int)

  // tmp: the temporary keys, one for each oid. updates: metadata rows that have been
  // checked and will be written.
  datatype State = State(
    objects: map<ObjectKey, Content>, tmp: map<string, Content>, threads: seq<Thread>,
    meta: map<(int, string), int>, updates: set<MetaRow>)

  datatype Step =
    | Arrive(u: Upload)
    | Stat(t: nat)
    | Put(t: nat)
    | Copy(t: nat)
    | CopyFails(t: nat)
    | Remove(t: nat)
    | Complete(repo: int, oid: string, body: Content)   // a body put past the server
    | VerifyStat(m: MetaRow)
    | FilePut(repo: int, content: Content)
    | MetaUpdate(m: MetaRow)

  function Init(): State { State(map[], map[], [], map[], {}) }

  predicate In(s: State, t: nat, phase: Phase) { t < |s.threads| && s.threads[t].phase == phase }

  predicate Enabled(s: State, step: Step) {
    match step
    case Stat(t) => In(s, t, Begin)
    case Put(t) => In(s, t, Absent)
    case Copy(t) => In(s, t, Checked)
    case CopyFails(t) => In(s, t, Checked)
    case Remove(t) => In(s, t, Leaving)
    case MetaUpdate(m) => m in s.updates
    case _ => true
  }

  // The check of an upload to a shared key, made on the body this request sent.
  predicate Accepted(c: Config, u: Upload) { |u.body| == u.size && c.hash(u.body) == u.oid }

  function Move(s: State, t: nat, phase: Phase): State
    requires t < |s.threads|
  {
    s.(threads := s.threads[t := s.threads[t].(phase := phase)])
  }

  function Store(s: State, key: ObjectKey, body: Content): State { s.(objects := s.objects[key := body]) }

  // An upload to a repository's own directory is put in place unchecked. One to a shared
  // key goes to the temporary key of its oid, is checked, and what the temporary key then
  // holds is copied.
  function Apply(c: Config, s: State, step: Step): State
    requires Enabled(s, step)
  {
    match step
    case Arrive(u) => s.(threads := s.threads + [Thread(u, Begin)])
    case Stat(t) =>
      var u := s.threads[t].u;
      Move(s, t, if c.KeyOf(u.repo, u.oid) in s.objects then Finished else Absent)
    case Put(t) =>
      var u := s.threads[t].u;
      if c.migrated(u.repo) then Store(Move(s, t, Finished), Own(u.repo, u.oid), u.body)
      else Move(s, t, if Accepted(c, u) then Checked else Leaving).(tmp := s.tmp[u.oid := u.body])
    case Copy(t) =>
      var oid := s.threads[t].u.oid;
      if oid in s.tmp then Store(Move(s, t, Leaving), Shared(oid), s.tmp[oid]) else Move(s, t, Leaving)
    case CopyFails(t) => Move(s, t, Leaving)
    case Remove(t) => Move(s, t, Finished).(tmp := s.tmp - {s.threads[t].u.oid})
    case Complete(repo, oid, body) => Store(s, c.KeyOf(repo, oid), body)
    case VerifyStat(m) =>
      var key := c.KeyOf(m.repo, m.oid);
      if key in s.objects && |s.objects[key]| == m.size then s.(updates := s.updates + {m}) else s
    case FilePut(repo, content) =>
      var oid := c.hash(content);
      Store(s, c.KeyOf(repo, oid), content).(updates := s.updates + {MetaRow(repo, oid, |content|)})
    case MetaUpdate(m) => s.(meta := s.meta[(m.repo, m.oid) := m.size])
  }

  ghost predicate IsRun(c: Config, s: State, steps: seq<Step>)
    decreases |steps|
  {
    steps == [] || (Enabled(s, steps[0]) && IsRun(c, Apply(c, s, steps[0]), steps[1..]))
  }

  ghost function End(c: Config, s: State, steps: seq<Step>): State
    requires IsRun(c, s, steps)
    decreases |steps|
  {
    if steps == [] then s else End(c, Apply(c, s, steps[0]), steps[1..])
  }

  // ---------------------------------------------------------------- consistency

  ghost predicate Injective(hash: Content -> string) { forall a, b | hash(a) == hash(b) :: a == b }

  // Every object is what its oid says.
  ghost predicate Genuine(c: Config, s: State) {
    forall key | key in s.objects :: c.hash(s.objects[key]) == key.oid
  }

  ghost predicate RowHolds(c: Config, s: State, repo: int, oid: string, size: int) {
    c.KeyOf(repo, oid) in s.objects && |s.objects[c.KeyOf(repo, oid)]| == size
  }

  // Every metadata row, written or about to be, names an object of that size.
  ghost predicate Sized(c: Config, s: State) {
    && (forall row | row in s.meta :: RowHolds(c, s, row.0, row.1, s.meta[row]))
    && (forall m | m in s.updates :: RowHolds(c, s, m.repo, m.oid, m.size))
  }

  // Nothing that was stored has changed.
  ghost predicate Kept(s: State, t: State) {
    forall key | key in s.objects :: key in t.objects && t.objects[key] == s.objects[key]
  }

  // An upload about to be copied has passed its check.
  ghost predicate Validated(c: Config, s: State) {
    forall t: nat | t < |s.threads| && s.threads[t].phase == Checked ::
      !c.migrated(s.threads[t].u.repo) && Accepted(c, s.threads[t].u)
  }

  // The step puts nothing wrong in place: an unchecked body is the right one, and a copy
  // finds at the temporary key what its own request put there, or nothing.
  predicate Faithful(c: Config, s: State, step: Step)
    requires Enabled(s, step)
  {
    match step
    case Put(t) => c.migrated(s.threads[t].u.repo) ==> c.hash(s.threads[t].u.body) == s.threads[t].u.oid
    case Copy(t) => s.threads[t].u.oid in s.tmp ==> s.tmp[s.threads[t].u.oid] == s.threads[t].u.body
    case Complete(repo, oid, body) => c.hash(body) == oid
    case _ => true
  }

  ghost predicate AllFaithful(c: Config, s: State, steps: seq<Step>)
    requires IsRun(c, s, steps)
    decreases |steps|
  {
    steps == [] || (Faithful(c, s, steps[0]) && AllFaithful(c, Apply(c, s, steps[0]), steps[1..]))
  }

  ghost predicate AlwaysGenuine(c: Config, s: State, steps: seq<Step>)
    requires IsRun(c, s, steps)
    decreases |steps|
  {
    Genuine(c, s) && (steps != [] ==> AlwaysGenuine(c, Apply(c, s, steps[0]), steps[1..]))
  }

  lemma StepValidated(c: Config, s: State, step: Step)
    requires Validated(c, s) && Enabled(s, step)
    ensures Validated(c, Apply(c, s, step))
  {}

  lemma StoreGenuineIff(c: Config, s: State, key: ObjectKey, body: Content)
    requires Genuine(c, s)
    ensures Genuine(c, Store(s, key, body)) <==> c.hash(body) == key.oid
  {
    var t := Store(s, key, body);
    assert key in t.objects && t.objects[key] == body;
  }

  lemma StepGenuineIff(c: Config, s: State, step: Step)
    requires Injective(c.hash) && Genuine(c, s) && Validated(c, s) && Enabled(s, step)
    ensures Genuine(c, Apply(c, s, step)) <==> Faithful(c, s, step)
  {
    match step
    case Put(t) =>
      var u := s.threads[t].u;
      StoreGenuineIff(c, Move(s, t, Finished), Own(u.repo, u.oid), u.body);
    case Copy(t) =>
      var u := s.threads[t].u;
      if u.oid in s.tmp { StoreGenuineIff(c, Move(s, t, Leaving), Shared(u.oid), s.tmp[u.oid]); }
    case Complete(repo, oid, body) => StoreGenuineIff(c, s, c.KeyOf(repo, oid), body);
    case FilePut(repo, content) => StoreGenuineIff(c, s, c.KeyOf(repo, c.hash(content)), content);
    case _ =>
  }

  // Of any run, interleaved and cut off anywhere: every object is always what its oid says
  // exactly when every unchecked body was right and every copy found its own body, or
  // nothing, at the temporary key it shares with all uploads of that oid.
  lemma {:induction false} GenuineIff(c: Config, s: State, steps: seq<Step>)
    requires Injective(c.hash) && Genuine(c, s) && Validated(c, s) && IsRun(c, s, steps)
    ensures AlwaysGenuine(c, s, steps) <==> AllFaithful(c, s, steps)
    decreases |steps|
  {
    if steps != [] {
      StepGenuineIff(c, s, steps[0]);
      StepValidated(c, s, steps[0]);
      if Faithful(c, s, steps[0]) {
        GenuineIff(c, Apply(c, s, steps[0]), steps[1..]);
      } else {
        NotGenuine(c, Apply(c, s, steps[0]), steps[1..]);
      }
    }
  }

  lemma NotGenuine(c: Config, s: State, steps: seq<Step>)
    requires IsRun(c, s, steps) && !Genuine(c, s)
    ensures !AlwaysGenuine(c, s, steps)
  {}

  lemma GenuineKept(c: Config, s: State, t: State)
    requires Injective(c.hash) && Genuine(c, s) && Genuine(c, t) && s.objects.Keys <= t.objects.Keys
    ensures Kept(s, t)
  {
    forall key | key in s.objects ensures t.objects[key] == s.objects[key] {
      assert c.hash(t.objects[key]) == c.hash(s.objects[key]);
    }
  }

  lemma SameLengthSized(c: Config, s: State, step: Step)
    requires Sized(c, s) && Enabled(s, step) && s.objects.Keys <= Apply(c, s, step).objects.Keys
    requires forall key | key in s.objects :: |Apply(c, s, step).objects[key]| == |s.objects[key]|
    ensures Sized(c, Apply(c, s, step))
  {
    var t := Apply(c, s, step);
    forall m | m in t.updates ensures RowHolds(c, t, m.repo, m.oid, m.size) {
      assert m in s.updates ==> RowHolds(c, s, m.repo, m.oid, m.size);
    }
    forall row | row in t.meta ensures RowHolds(c, t, row.0, row.1, t.meta[row]) {
      if step.MetaUpdate? && row == (step.m.repo, step.m.oid) {
        assert RowHolds(c, s, step.m.repo, step.m.oid, step.m.size);
      } else {
        assert RowHolds(c, s, row.0, row.1, s.meta[row]);
      }
    }
  }

  lemma KeptRows(c: Config, s: State, step: Step)
    requires Sized(c, s) && Enabled(s, step) && Kept(s, Apply(c, s, step))
    ensures Sized(c, Apply(c, s, step))
  {
    SameLengthSized(c, s, step);
  }

  lemma StepKeeps(c: Config, s: State, step: Step)
    requires Injective(c.hash) && Genuine(c, s) && Validated(c, s) && Sized(c, s)
    requires Enabled(s, step) && Faithful(c, s, step)
    ensures var t := Apply(c, s, step); Genuine(c, t) && Validated(c, t) && Sized(c, t) && Kept(s, t)
  {
    StepGenuineIff(c, s, step);
    StepValidated(c, s, step);
    GenuineKept(c, s, Apply(c, s, step));
    KeptRows(c, s, step);
  }

  // Over any such run every metadata row names an object of exactly its size, and an
  // object once stored never changes.
  lemma {:induction false} RunKeeps(c: Config, s: State, steps: seq<Step>)
    requires Injective(c.hash) && Genuine(c, s) && Validated(c, s) && Sized(c, s)
    requires IsRun(c, s, steps) && AllFaithful(c, s, steps)
    ensures var t := End(c, s, steps); Genuine(c, t) && Sized(c, t) && Kept(s, t)
    decreases |steps|
  {
    if steps != [] {
      StepKeeps(c, s, steps[0]);
      RunKeeps(c, Apply(c, s, steps[0]), steps[1..]);
    }
  }

  // ---------------------------------------------------------------- stored objects are left alone

  // The step writes the key although it is no upload that has yet to look: an upload past
  // its look, a commit, or a body put past the server.
  predicate Overwrites(c: Config, s: State, step: Step, key: ObjectKey)
    requires Enabled(s, step)
  {
    match step
    case Put(t) => c.migrated(s.threads[t].u.repo) && Own(s.threads[t].u.repo, s.threads[t].u.oid) == key
    case Copy(t) => Shared(s.threads[t].u.oid) == key
    case Complete(repo, oid, _) => c.KeyOf(repo, oid) == key
    case FilePut(repo, content) => c.KeyOf(repo, c.hash(content)) == key
    case _ => false
  }

  // A step that writes the key leaves an object there, unless it is a copy that finds
  // nothing at the temporary key; no other step changes what stands under it.
  lemma OverwritesIs(c: Config, s: State, step: Step, key: ObjectKey)
    requires Enabled(s, step)
    ensures var t := Apply(c, s, step);
            if Overwrites(c, s, step, key) then key in t.objects || (step.Copy? && s.threads[step.t].u.oid !in s.tmp)
            else (key in t.objects <==> key in s.objects) && (key in s.objects ==> t.objects[key] == s.objects[key])
  {}

  // The uploads, of n there were at first, that had looked by then.
  predicate HadLooked(first: seq<Thread>, t: nat) { t < |first| && first[t].phase != Begin }

  // Of the uploads none but those that had looked at first writes the key, and there is no
  // commit to it and no body put past the server.
  ghost predicate OnlyLateUploads(c: Config, s: State, steps: seq<Step>, first: seq<Thread>, key: ObjectKey)
    requires IsRun(c, s, steps)
    decreases |steps|
  {
    steps == [] ||
    (&& (Overwrites(c, s, steps[0], key) ==>
           (steps[0].Put? || steps[0].Copy?) && !HadLooked(first, steps[0].t))
     && OnlyLateUploads(c, Apply(c, s, steps[0]), steps[1..], first, key))
  }

  // Uploads that had not looked at first either have not looked yet, or found the object,
  // or are about another key.
  ghost predicate LateAreOff(c: Config, s: State, first: seq<Thread>, key: ObjectKey) {
    && key in s.objects && |first| <= |s.threads|
    && forall t: nat | t < |s.threads| && !HadLooked(first, t) ::
         var th := s.threads[t];
         && (c.KeyOf(th.u.repo, th.u.oid) == key ==> th.phase == Begin || th.phase == Finished)
         && (th.phase == Checked ==> !c.migrated(th.u.repo))
  }

  lemma LateStep(c: Config, s: State, step: Step, first: seq<Thread>, key: ObjectKey)
    requires LateAreOff(c, s, first, key) && Enabled(s, step)
    requires Overwrites(c, s, step, key) ==> (step.Put? || step.Copy?) && !HadLooked(first, step.t)
    ensures LateAreOff(c, Apply(c, s, step), first, key)
    ensures Apply(c, s, step).objects[key] == s.objects[key]
  {}

  // Whatever bodies clients send: an object that is stored is not changed by any upload
  // that looks after that, over any run. Only an upload that had looked before, a commit,
  // or a body put past the server can change it.
  lemma {:induction false} StoredIsLeft(c: Config, s: State, steps: seq<Step>, first: seq<Thread>, key: ObjectKey)
    requires LateAreOff(c, s, first, key) && IsRun(c, s, steps) && OnlyLateUploads(c, s, steps, first, key)
    ensures key in End(c, s, steps).objects && End(c, s, steps).objects[key] == s.objects[key]
    decreases |steps|
  {
    if steps != [] {
      LateStep(c, s, steps[0], first, key);
      StoredIsLeft(c, Apply(c, s, steps[0]), steps[1..], first, key);
    }
  }

  lemma StoredObjectLeftAlone(c: Config, s: State, steps: seq<Step>, key: ObjectKey)
    requires key in s.objects && IsRun(c, s, steps) && OnlyLateUploads(c, s, steps, s.threads, key)
    ensures key in End(c, s, steps).objects && End(c, s, steps).objects[key] == s.objects[key]
  {
    StoredIsLeft(c, s, steps, s.threads, key);
  }

  // An upload of a stored object ends at its look.
  lemma LookFindsStored(c: Config, s: State, t: nat)
    requires Enabled(s, Stat(t))
    ensures var u, s' := s.threads[t].u, Apply(c, s, Stat(t));
            && s'.objects == s.objects && s'.tmp == s.tmp
            && (s'.threads[t].phase == Finished <==> c.KeyOf(u.repo, u.oid) in s.objects)
            && (c.KeyOf(u.repo, u.oid) !in s.objects ==> Enabled(s', Put(t)))
  {}

  // ---------------------------------------------------------------- which requests are safe

  // What clients send: uploads, and bodies they put under the final key themselves, by
  // completing a multipart upload or through an upload link signed for that key. The
  // server checks none of the latter.
  datatype Clients = Clients(sends: Upload -> bool, completes: (int, string, Content) -> bool)

  predicate Permitted(cl: Clients, step: Step) {
    match step
    case Arrive(u) => cl.sends(u)
    case Complete(repo, oid, body) => cl.completes(repo, oid, body)
    case _ => true
  }

  predicate AllPermitted(cl: Clients, steps: seq<Step>) { forall i | 0 <= i < |steps| :: Permitted(cl, steps[i]) }

  predicate SharedUpload(c: Config, cl: Clients, u: Upload) { cl.sends(u) && !c.migrated(u.repo) }

  // Nobody sends an unchecked body under a foreign oid, and no oid of the shared store is
  // sent with its right body by one client and with a wrong one by another.
  ghost predicate Trusted(c: Config, cl: Clients) {
    && (forall u | cl.sends(u) && c.migrated(u.repo) :: c.hash(u.body) == u.oid)
    && (forall repo, oid, body | cl.completes(repo, oid, body) :: c.hash(body) == oid)
    && (forall u, v | SharedUpload(c, cl, u) && SharedUpload(c, cl, v) && u.oid == v.oid && Accepted(c, u) ::
          c.hash(v.body) == v.oid)
  }

  ghost predicate SentBy(c: Config, cl: Clients, oid: string, body: Content) {
    exists v :: SharedUpload(c, cl, v) && v.oid == oid && v.body == body
  }

  // What is under way, or at a temporary key, was sent by a client.
  ghost predicate FromClients(c: Config, cl: Clients, s: State) {
    && (forall t: nat | t < |s.threads| :: cl.sends(s.threads[t].u))
    && (forall oid | oid in s.tmp :: SentBy(c, cl, oid, s.tmp[oid]))
  }

  lemma StepFromClients(c: Config, cl: Clients, s: State, step: Step)
    requires FromClients(c, cl, s) && Enabled(s, step) && Permitted(cl, step)
    ensures FromClients(c, cl, Apply(c, s, step))
  {
    var t := Apply(c, s, step);
    if step.Put? && !c.migrated(s.threads[step.t].u.repo) {
      var u := s.threads[step.t].u;
      assert SharedUpload(c, cl, u) && SentBy(c, cl, u.oid, u.body);
    }
    forall oid | oid in t.tmp ensures SentBy(c, cl, oid, t.tmp[oid]) {
      assert oid in s.tmp && t.tmp[oid] == s.tmp[oid] ==> SentBy(c, cl, oid, s.tmp[oid]);
    }
  }

  lemma TrustedStep(c: Config, cl: Clients, s: State, step: Step)
    requires Injective(c.hash) && Trusted(c, cl) && FromClients(c, cl, s) && Validated(c, s)
    requires Enabled(s, step) && Permitted(cl, step)
    ensures Faithful(c, s, step)
  {
    if step.Copy? && s.threads[step.t].u.oid in s.tmp {
      var u := s.threads[step.t].u;
      assert SentBy(c, cl, u.oid, s.tmp[u.oid]);
      var v :| SharedUpload(c, cl, v) && v.oid == u.oid && v.body == s.tmp[u.oid];
      assert SharedUpload(c, cl, u);
      assert c.hash(v.body) == c.hash(u.body);
    }
  }

  lemma {:induction false} TrustedFaithful(c: Config, cl: Clients, s: State, steps: seq<Step>)
    requires Injective(c.hash) && Trusted(c, cl) && FromClients(c, cl, s) && Validated(c, s)
    requires IsRun(c, s, steps) && AllPermitted(cl, steps)
    ensures AllFaithful(c, s, steps)
    decreases |steps|
  {
    if steps != [] {
      assert Permitted(cl, steps[0]);
      TrustedStep(c, cl, s, steps[0]);
      StepFromClients(c, cl, s, steps[0]);
      StepValidated(c, s, steps[0]);
      TrustedFaithful(c, cl, Apply(c, s, steps[0]), steps[1..]);
    }
  }

  // With trusted clients every run from the empty store keeps objects and rows consistent.
  lemma TrustedKeeps(c: Config, cl: Clients, steps: seq<Step>)
    requires Injective(c.hash) && Trusted(c, cl) && IsRun(c, Init(), steps) && AllPermitted(cl, steps)
    ensures Genuine(c, End(c, Init(), steps)) && Sized(c, End(c, Init(), steps))
  {
    TrustedFaithful(c, cl, Init(), steps);
    RunKeeps(c, Init(), steps);
  }

  // ---------------------------------------------------------------- runs that break it

  ghost predicate Reaches(c: Config, cl: Clients, s: State, t: State) {
    exists steps :: IsRun(c, s, steps) && AllPermitted(cl, steps) && End(c, s, steps) == t
  }

  lemma Here(c: Config, cl: Clients, s: State)
    ensures Reaches(c, cl, s, s)
  {
    assert IsRun(c, s, []) && AllPermitted(cl, []) && End(c, s, []) == s;
  }

  lemma Then(c: Config, cl: Clients, s: State, t: State, step: Step)
    requires Reaches(c, cl, s, t) && Enabled(t, step) && Permitted(cl, step)
    ensures Reaches(c, cl, s, Apply(c, t, step))
  {
    var steps :| IsRun(c, s, steps) && AllPermitted(cl, steps) && End(c, s, steps) == t;
    OneMore(c, s, steps, step);
    assert AllPermitted(cl, steps + [step]);
  }

  lemma {:induction false} OneMore(c: Config, s: State, steps: seq<Step>, step: Step)
    requires IsRun(c, s, steps) && Enabled(End(c, s, steps), step)
    ensures IsRun(c, s, steps + [step]) && End(c, s, steps + [step]) == Apply(c, End(c, s, steps), step)
    decreases |steps|
  {
    if steps == [] {
      assert (steps + [step])[1..] == [];
    } else {
      assert (steps + [step])[1..] == steps[1..] + [step];
      OneMore(c, Apply(c, s, steps[0]), steps[1..], step);
    }
  }

  lemma WrongOwnUpload(c: Config, cl: Clients, u: Upload)
    requires cl.sends(u) && c.migrated(u.repo) && c.hash(u.body) != u.oid
    ensures exists t :: Reaches(c, cl, Init(), t) && !Genuine(c, t)
  {
    hide Reaches;
    Here(c, cl, Init());
    Then(c, cl, Init(), Init(), Arrive(u));
    var s1 := Apply(c, Init(), Arrive(u));
    Then(c, cl, Init(), s1, Stat(0));
    var s2 := Apply(c, s1, Stat(0));
    Then(c, cl, Init(), s2, Put(0));
    var s3 := Apply(c, s2, Put(0));
    assert Own(u.repo, u.oid) in s3.objects && s3.objects[Own(u.repo, u.oid)] == u.body;
  }

  lemma WrongCompletion(c: Config, cl: Clients, repo: int, oid: string, body: Content)
    requires cl.completes(repo, oid, body) && c.hash(body) != oid
    ensures exists t :: Reaches(c, cl, Init(), t) && !Genuine(c, t)
  {
    hide Reaches;
    Here(c, cl, Init());
    Then(c, cl, Init(), Init(), Complete(repo, oid, body));
    var s1 := Apply(c, Init(), Complete(repo, oid, body));
    assert c.KeyOf(repo, oid) in s1.objects && s1.objects[c.KeyOf(repo, oid)] == body;
  }

  // Two uploads of one oid have found no object and put their bodies to the temporary key;
  // the first, checked, copies what the second left there.
  lemma Overtaken(c: Config, cl: Clients, u: Upload, v: Upload) returns (t: State)
    requires SharedUpload(c, cl, u) && SharedUpload(c, cl, v) && u.oid == v.oid && Accepted(c, u)
    ensures Reaches(c, cl, Init(), t) && Shared(u.oid) in t.objects && t.objects[Shared(u.oid)] == v.body
  {
    hide Reaches;
    Here(c, cl, Init());
    Then(c, cl, Init(), Init(), Arrive(u));
    var s1 := Apply(c, Init(), Arrive(u));
    Then(c, cl, Init(), s1, Arrive(v));
    var s2 := Apply(c, s1, Arrive(v));
    Then(c, cl, Init(), s2, Stat(0));
    var s3 := Apply(c, s2, Stat(0));
    Then(c, cl, Init(), s3, Stat(1));
    var s4 := Apply(c, s3, Stat(1));
    Then(c, cl, Init(), s4, Put(0));
    var s5 := Apply(c, s4, Put(0));
    Then(c, cl, Init(), s5, Put(1));
    var s6 := Apply(c, s5, Put(1));
    Then(c, cl, Init(), s6, Copy(0));
    t := Apply(c, s6, Copy(0));
  }

  // Every run keeps every object what its oid says exactly when the clients are trusted,
  // whether repositories are migrated or not.
  lemma ConsistentIff(c: Config, cl: Clients)
    requires Injective(c.hash)
    ensures (forall steps | IsRun(c, Init(), steps) && AllPermitted(cl, steps) :: Genuine(c, End(c, Init(), steps)))
       <==> Trusted(c, cl)
  {
    if Trusted(c, cl) {
      forall steps | IsRun(c, Init(), steps) && AllPermitted(cl, steps) ensures Genuine(c, End(c, Init(), steps)) {
        TrustedKeeps(c, cl, steps);
      }
    } else {
      UntrustedBreaks(c, cl);
      var t :| Reaches(c, cl, Init(), t) && !Genuine(c, t);
      var steps :| IsRun(c, Init(), steps) && AllPermitted(cl, steps) && End(c, Init(), steps) == t;
    }
  }

  lemma UntrustedBreaks(c: Config, cl: Clients)
    requires !Trusted(c, cl)
    ensures exists t :: Reaches(c, cl, Init(), t) && !Genuine(c, t)
  {
    if u :| cl.sends(u) && c.migrated(u.repo) && c.hash(u.body) != u.oid {
      WrongOwnUpload(c, cl, u);
    } else if repo, oid, body :| cl.completes(repo, oid, body) && c.hash(body) != oid {
      WrongCompletion(c, cl, repo, oid, body);
    } else {
      var u, v :| SharedUpload(c, cl, u) && SharedUpload(c, cl, v) && u.oid == v.oid && Accepted(c, u) && c.hash(v.body) != v.oid;
      var t := Overtaken(c, cl, u, v);
      assert Shared(u.oid) in t.objects;
    }
  }

  // Three uploads of one oid have found no object; the first has stored it and its row is
  // written.
  lemma StoredWithRow(c: Config, cl: Clients, repo: int, u: Upload, v: Upload) returns (t: State)
    requires !c.migrated(repo) && cl.sends(u) && cl.sends(v) && u.repo == v.repo == repo && u.oid == v.oid && Accepted(c, u)
    ensures Reaches(c, cl, Init(), t)
    ensures t.threads == [Thread(u, Leaving), Thread(u, Absent), Thread(v, Absent)] && t.meta == map[(repo, u.oid) := u.size]
  {
    hide Reaches;
    Here(c, cl, Init());
    Then(c, cl, Init(), Init(), Arrive(u));
    t := Apply(c, Init(), Arrive(u));
    Then(c, cl, Init(), t, Arrive(u));
    t := Apply(c, t, Arrive(u));
    Then(c, cl, Init(), t, Arrive(v));
    t := Apply(c, t, Arrive(v));
    assert t.objects == map[] && t.meta == map[] && t.threads == [Thread(u, Begin), Thread(u, Begin), Thread(v, Begin)];
    Then(c, cl, Init(), t, Stat(0));
    t := Apply(c, t, Stat(0));
    Then(c, cl, Init(), t, Stat(1));
    t := Apply(c, t, Stat(1));
    Then(c, cl, Init(), t, Stat(2));
    t := Apply(c, t, Stat(2));
    assert t.objects == map[] && t.meta == map[] && t.threads == [Thread(u, Absent), Thread(u, Absent), Thread(v, Absent)];
    Then(c, cl, Init(), t, Put(0));
    t := Apply(c, t, Put(0));
    Then(c, cl, Init(), t, Copy(0));
    t := Apply(c, t, Copy(0));
    assert t.objects == map[Shared(u.oid) := u.body] && t.meta == map[];
    var m := MetaRow(repo, u.oid, u.size);
    Then(c, cl, Init(), t, VerifyStat(m));
    t := Apply(c, t, VerifyStat(m));
    Then(c, cl, Init(), t, MetaUpdate(m));
    t := Apply(c, t, MetaUpdate(m));
  }

  // A row can be broken in every kind of repository. In the shared store: an object is
  // uploaded and its row verified; a second upload of the true body and a third of a
  // shorter one had found no object before, and the second copies the third's body.
  lemma SharedUploadBreaksRow(c: Config, cl: Clients, repo: int)
    requires !c.migrated(repo) && forall u :: cl.sends(u)
    ensures exists t :: Reaches(c, cl, Init(), t) && !Sized(c, t)
  {
    hide Reaches;
    var oid := c.hash([1, 2]);
    var u, v := Upload(repo, oid, 2, [1, 2]), Upload(repo, oid, 1, [9]);
    var s1 := StoredWithRow(c, cl, repo, u, v);
    Then(c, cl, Init(), s1, Put(1));
    var s2 := Apply(c, s1, Put(1));
    Then(c, cl, Init(), s2, Put(2));
    var s3 := Apply(c, s2, Put(2));
    Then(c, cl, Init(), s3, Copy(1));
    var s4 := Apply(c, s3, Copy(1));
    assert (repo, oid) in s4.meta && s4.meta[(repo, oid)] == 2 && s4.objects[Shared(oid)] == [9];
    assert !RowHolds(c, s4, repo, oid, 2);
  }

  // In a migrated repository an upload is stored unchecked; once its row is verified, a
  // file commit of the true content replaces the object and leaves the row with the old
  // size until its own update, which may never come.
  lemma MigratedUploadBreaksRow(c: Config, cl: Clients, repo: int)
    requires c.migrated(repo) && forall u :: cl.sends(u)
    ensures exists t :: Reaches(c, cl, Init(), t) && !Sized(c, t)
  {
    hide Reaches;
    var oid := c.hash([1, 2]);
    var u, m := Upload(repo, oid, 1, [9]), MetaRow(repo, oid, 1);
    Here(c, cl, Init());
    Then(c, cl, Init(), Init(), Arrive(u));
    var s1 := Apply(c, Init(), Arrive(u));
    Then(c, cl, Init(), s1, Stat(0));
    var s2 := Apply(c, s1, Stat(0));
    Then(c, cl, Init(), s2, Put(0));
    var s3 := Apply(c, s2, Put(0));
    assert s3.objects[Own(repo, oid)] == [9];
    Then(c, cl, Init(), s3, VerifyStat(m));
    var s4 := Apply(c, s3, VerifyStat(m));
    Then(c, cl, Init(), s4, MetaUpdate(m));
    var s5 := Apply(c, s4, MetaUpdate(m));
    Then(c, cl, Init(), s5, FilePut(repo, [1, 2]));
    var s6 := Apply(c, s5, FilePut(repo, [1, 2]));
    assert (repo, oid) in s6.meta && s6.meta[(repo, oid)] == 1;
    assert !RowHolds(c, s6, repo, oid, 1);
  }

  // ---------------------------------------------------------------- rows

  ghost predicate ByCommit(c: Config, key: ObjectKey, body: Content) {
    exists repo :: c.KeyOf(repo, c.hash(body)) == key
  }

  ghost predicate ByCompletion(c: Config, cl: Clients, key: ObjectKey, body: Content) {
    exists repo :: c.KeyOf(repo, key.oid) == key && cl.completes(repo, key.oid, body)
  }

  predicate ByOwnUpload(c: Config, cl: Clients, key: ObjectKey, body: Content, u: Upload) {
    cl.sends(u) && c.migrated(u.repo) && key == Own(u.repo, u.oid) && body == u.body
  }

  predicate ByOvertaking(c: Config, cl: Clients, key: ObjectKey, body: Content, u: Upload, v: Upload) {
    SharedUpload(c, cl, u) && SharedUpload(c, cl, v) && Accepted(c, u) && key == Shared(u.oid) == Shared(v.oid) && body == v.body
  }

  // The bodies that can come to stand under a key.
  ghost predicate CanStand(c: Config, cl: Clients, key: ObjectKey, body: Content) {
    || ByCommit(c, key, body)
    || ByCompletion(c, cl, key, body)
    || (exists u :: ByOwnUpload(c, cl, key, body, u))
    || (exists u, v :: ByOvertaking(c, cl, key, body, u, v))
  }

  // No key can receive bodies of different lengths.
  ghost predicate OneLength(c: Config, cl: Clients) {
    forall key, a, b | CanStand(c, cl, key, a) && CanStand(c, cl, key, b) :: |a| == |b|
  }

  ghost predicate AllStand(c: Config, cl: Clients, s: State) {
    forall key | key in s.objects :: CanStand(c, cl, key, s.objects[key])
  }

  lemma StepStands(c: Config, cl: Clients, s: State, step: Step)
    requires AllStand(c, cl, s) && FromClients(c, cl, s) && Validated(c, s) && Enabled(s, step) && Permitted(cl, step)
    ensures AllStand(c, cl, Apply(c, s, step))
  {
    match step
    case Put(t) =>
      var u := s.threads[t].u;
      assert c.migrated(u.repo) ==> ByOwnUpload(c, cl, Own(u.repo, u.oid), u.body, u);
    case Copy(t) =>
      var u := s.threads[t].u;
      if u.oid in s.tmp {
        assert SentBy(c, cl, u.oid, s.tmp[u.oid]);
        var v :| SharedUpload(c, cl, v) && v.oid == u.oid && v.body == s.tmp[u.oid];
        assert ByOvertaking(c, cl, Shared(u.oid), s.tmp[u.oid], u, v);
      }
    case Complete(repo, oid, body) => assert ByCompletion(c, cl, c.KeyOf(repo, oid), body);
    case FilePut(repo, content) => assert ByCommit(c, c.KeyOf(repo, c.hash(content)), content);
    case _ =>
  }

  lemma OneLengthStep(c: Config, cl: Clients, s: State, step: Step)
    requires OneLength(c, cl) && Sized(c, s) && Enabled(s, step)
    requires AllStand(c, cl, s) && AllStand(c, cl, Apply(c, s, step))
    ensures Sized(c, Apply(c, s, step))
  {
    var t := Apply(c, s, step);
    forall key | key in s.objects ensures |t.objects[key]| == |s.objects[key]| {
      assert CanStand(c, cl, key, s.objects[key]) && CanStand(c, cl, key, t.objects[key]);
    }
    hide CanStand;
    SameLengthSized(c, s, step);
  }

  lemma {:induction false} OneLengthKeepsRows(c: Config, cl: Clients, s: State, steps: seq<Step>)
    requires OneLength(c, cl) && AllStand(c, cl, s) && FromClients(c, cl, s) && Validated(c, s) && Sized(c, s)
    requires IsRun(c, s, steps) && AllPermitted(cl, steps)
    ensures Sized(c, End(c, s, steps))
    decreases |steps|
  {
    if steps != [] {
      assert Permitted(cl, steps[0]);
      StepStands(c, cl, s, steps[0]);
      StepFromClients(c, cl, s, steps[0]);
      StepValidated(c, s, steps[0]);
      OneLengthStep(c, cl, s, steps[0]);
      OneLengthKeepsRows(c, cl, Apply(c, s, steps[0]), steps[1..]);
    }
  }

  // The n requests from i on have found no object, and can bring the body under the key.
  ghost predicate Ready(c: Config, cl: Clients, ths: seq<Thread>, i: nat, n: nat, key: ObjectKey, body: Content) {
    && i + n <= |ths| && (forall j | i <= j < i + n :: ths[j].phase == Absent)
    && (n == 0 ==> ByCommit(c, key, body) || ByCompletion(c, cl, key, body))
    && (n == 1 ==> ByOwnUpload(c, cl, key, body, ths[i].u))
    && (n == 2 ==> ByOvertaking(c, cl, key, body, ths[i].u, ths[i + 1].u))
    && n <= 2
  }

  lemma Prepare(c: Config, cl: Clients, s: State, u: Upload) returns (t: State)
    requires Reaches(c, cl, Init(), s) && s.objects == map[] && cl.sends(u)
    ensures Reaches(c, cl, Init(), t) && t == s.(threads := s.threads + [Thread(u, Absent)])
  {
    hide Reaches;
    Then(c, cl, Init(), s, Arrive(u));
    t := Apply(c, s, Arrive(u));
    Then(c, cl, Init(), t, Stat(|s.threads|));
    t := Apply(c, t, Stat(|s.threads|));
  }

  lemma MakeReady(c: Config, cl: Clients, s: State, key: ObjectKey, body: Content) returns (t: State, n: nat)
    requires Reaches(c, cl, Init(), s) && s.objects == map[] && CanStand(c, cl, key, body)
    ensures Reaches(c, cl, Init(), t) && t.objects == map[]
    ensures |t.threads| == |s.threads| + n && t.threads[..|s.threads|] == s.threads
    ensures Ready(c, cl, t.threads, |s.threads|, n, key, body)
  {
    hide Reaches;
    if ByCommit(c, key, body) || ByCompletion(c, cl, key, body) {
      t, n := s, 0;
    } else if u :| ByOwnUpload(c, cl, key, body, u) {
      t := Prepare(c, cl, s, u);
      n := 1;
    } else {
      var u, v :| ByOvertaking(c, cl, key, body, u, v);
      t := Prepare(c, cl, s, u);
      t := Prepare(c, cl, t, v);
      n := 2;
    }
  }

  lemma Place(c: Config, cl: Clients, s: State, i: nat, n: nat, key: ObjectKey, body: Content) returns (t: State)
    requires Reaches(c, cl, Init(), s) && Ready(c, cl, s.threads, i, n, key, body)
    ensures Reaches(c, cl, Init(), t) && key in t.objects && t.objects[key] == body && s.updates <= t.updates
    ensures |t.threads| == |s.threads| && forall j | i + n <= j < |s.threads| :: t.threads[j] == s.threads[j]
  {
    hide Reaches;
    if n == 0 && ByCommit(c, key, body) {
      var repo :| c.KeyOf(repo, c.hash(body)) == key;
      Then(c, cl, Init(), s, FilePut(repo, body));
      t := Apply(c, s, FilePut(repo, body));
    } else if n == 0 {
      var repo :| c.KeyOf(repo, key.oid) == key && cl.completes(repo, key.oid, body);
      Then(c, cl, Init(), s, Complete(repo, key.oid, body));
      t := Apply(c, s, Complete(repo, key.oid, body));
    } else if n == 1 {
      Then(c, cl, Init(), s, Put(i));
      t := Apply(c, s, Put(i));
    } else {
      t := PlaceShared(c, cl, s, i, key, body);
    }
  }

  lemma PlaceShared(c: Config, cl: Clients, s: State, i: nat, key: ObjectKey, body: Content) returns (t: State)
    requires Reaches(c, cl, Init(), s) && Ready(c, cl, s.threads, i, 2, key, body)
    ensures Reaches(c, cl, Init(), t) && key in t.objects && t.objects[key] == body && s.updates <= t.updates
    ensures |t.threads| == |s.threads| && forall j | i + 2 <= j < |s.threads| :: t.threads[j] == s.threads[j]
  {
    hide Reaches;
    Then(c, cl, Init(), s, Put(i));
    var s1 := Apply(c, s, Put(i));
    Then(c, cl, Init(), s1, Put(i + 1));
    var s2 := Apply(c, s1, Put(i + 1));
    Then(c, cl, Init(), s2, Copy(i));
    t := Apply(c, s2, Copy(i));
  }

  lemma RepoOf(c: Config, cl: Clients, key: ObjectKey, body: Content) returns (repo: int)
    requires CanStand(c, cl, key, body)
    ensures c.KeyOf(repo, key.oid) == key
  {
    if ByCommit(c, key, body) {
      repo :| c.KeyOf(repo, c.hash(body)) == key;
    } else if ByCompletion(c, cl, key, body) {
      repo :| c.KeyOf(repo, key.oid) == key && cl.completes(repo, key.oid, body);
    } else if u :| ByOwnUpload(c, cl, key, body, u) {
      repo := u.repo;
    } else {
      var u, v :| ByOvertaking(c, cl, key, body, u, v);
      repo := u.repo;
    }
  }

  // Two bodies of different lengths for one key: the first is stored and its row checked,
  // then the second is stored.
  lemma TwoLengthsBreak(c: Config, cl: Clients, key: ObjectKey, a: Content, b: Content) returns (t: State)
    requires CanStand(c, cl, key, a) && CanStand(c, cl, key, b) && |a| != |b|
    ensures Reaches(c, cl, Init(), t) && !Sized(c, t)
  {
    Here(c, cl, Init());
    hide Reaches, CanStand;
    var n, k;
    t, n := MakeReady(c, cl, Init(), key, a);
    var s := t;
    t, k := MakeReady(c, cl, s, key, b);
    StillReady(c, cl, s.threads, t.threads, 0, n, key, a);
    var both := t.threads;
    t := Place(c, cl, t, 0, n, key, a);
    var repo := RepoOf(c, cl, key, a);
    var m := MetaRow(repo, key.oid, |a|);
    Then(c, cl, Init(), t, VerifyStat(m));
    t := Apply(c, t, VerifyStat(m));
    assert m in t.updates;
    SameReady(c, cl, both, t.threads, n, k, key, b);
    t := Place(c, cl, t, n, k, key, b);
    assert !RowHolds(c, t, m.repo, m.oid, m.size);
  }

  lemma StillReady(c: Config, cl: Clients, ths: seq<Thread>, more: seq<Thread>, i: nat, n: nat, key: ObjectKey, body: Content)
    requires Ready(c, cl, ths, i, n, key, body) && |ths| <= |more| && more[..|ths|] == ths
    ensures Ready(c, cl, more, i, n, key, body)
  {
    assert forall j | 0 <= j < |ths| :: more[j] == more[..|ths|][j];
  }

  lemma SameReady(c: Config, cl: Clients, ths: seq<Thread>, now: seq<Thread>, i: nat, n: nat, key: ObjectKey, body: Content)
    requires Ready(c, cl, ths, i, n, key, body) && |ths| == |now| && forall j | i <= j < |ths| :: now[j] == ths[j]
    ensures Ready(c, cl, now, i, n, key, body)
  {}

  // Every run keeps every row at the size of its object exactly when no key can receive
  // bodies of different lengths.
  lemma RowsIff(c: Config, cl: Clients)
    ensures (forall steps | IsRun(c, Init(), steps) && AllPermitted(cl, steps) :: Sized(c, End(c, Init(), steps)))
       <==> OneLength(c, cl)
  {
    if OneLength(c, cl) {
      forall steps | IsRun(c, Init(), steps) && AllPermitted(cl, steps) ensures Sized(c, End(c, Init(), steps)) {
        OneLengthKeepsRows(c, cl, Init(), steps);
      }
    } else {
      var key, a, b :| CanStand(c, cl, key, a) && CanStand(c, cl, key, b) && |a| != |b|;
      var t := TwoLengthsBreak(c, cl, key, a, b);
      var steps :| IsRun(c, Init(), steps) && AllPermitted(cl, steps) && End(c, Init(), steps) == t;
    }
  }

  // ---------------------------------------------------------------- one upload by itself

  // From the empty store, with nothing else going on: an upload to a repository's own
  // directory stores its body; one to a shared key does if it passes the check and stores
  // nothing otherwise, and leaves nothing at the temporary key.
  lemma LoneUpload(c: Config, cl: Clients, u: Upload) returns (t: State)
    requires cl.sends(u)
    ensures Reaches(c, cl, Init(), t)
    ensures t.threads == [Thread(u, Finished)] && t.tmp == map[] && t.meta == map[] && t.updates == {}
    ensures t.objects == if c.migrated(u.repo) then map[Own(u.repo, u.oid) := u.body]
                         else if |u.body| == u.size && c.hash(u.body) == u.oid then map[Shared(u.oid) := u.body]
                         else map[]
  {
    hide Reaches;
    Here(c, cl, Init());
    t := Prepare(c, cl, Init(), u);
    assert t.tmp == map[] && t.meta == map[] && t.updates == {};
    Then(c, cl, Init(), t, Put(0));
    t := Apply(c, t, Put(0));
    if !c.migrated(u.repo) {
      if Accepted(c, u) {
        Then(c, cl, Init(), t, Copy(0));
        t := Apply(c, t, Copy(0));
      }
      Then(c, cl, Init(), t, Remove(0));
      t := Apply(c, t, Remove(0));
    }
  }

  // And a file commit stores its content under its own oid, and leaves its row to be
  // written.
  lemma LoneCommit(c: Config, cl: Clients, repo: int, content: Content) returns (t: State)
    ensures Reaches(c, cl, Init(), t)
    ensures var oid := c.hash(content);
            && t.objects == map[if c.migrated(repo) then Own(repo, oid) else Shared(oid) := content]
            && t.meta == map[(repo, oid) := |content|] && t.threads == []
  {
    hide Reaches;
    Here(c, cl, Init());
    Then(c, cl, Init(), Init(), FilePut(repo, content));
    t := Apply(c, Init(), FilePut(repo, content));
    var m := MetaRow(repo, c.hash(content), |content|);
    Then(c, cl, Init(), t, MetaUpdate(m));
    t := Apply(c, t, MetaUpdate(m));
  }

  // An upload that has looked for its object and found none ends with the removal of what
  // then stands at the temporary key, whatever became of its check and its copy.
  lemma EndsWithoutTemp(c: Config, s: State, step: Step, t: nat)
    requires Enabled(s, step) && t < |s.threads| && !c.migrated(s.threads[t].u.repo)
    requires s.threads[t].phase != Begin && s.threads[t].phase != Finished
    ensures var s' := Apply(c, s, step);
            && t < |s'.threads|
            && (s'.threads[t].phase == Finished ==> step == Remove(t) && s'.tmp == s.tmp - {s.threads[t].u.oid})
  {}
}
