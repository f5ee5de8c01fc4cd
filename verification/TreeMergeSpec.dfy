/** What GraphMerger (src/core/semantic/GraphMerger.cpp) makes of a base node and the two revisions,
    said without recursion and without mutation. */
module TreeMergeSpec {
  import opened Seqs
  import StrVecUnion

  /** The identity of a node: its ID in the graph. */
  type Id = nat

  /** hashSignature, by which nodes compare equal and are found in hash tables. The nodes of a revision keep theirs;
      that of a base node hashes its name or its body, which the merge rewrites. */
  type Sig = nat

  datatype Option<T> = None | Some(value: T)

  datatype Text = Text(comment: string, signature: string, name: string, body: string, extra: Extra)

  /** What only functions, special members, operator casts and translation units have. */
  datatype Extra =
    | NoExtra
    | Function(fields: FunctionFields)
    | SpecialMember(fields: FunctionFields)
    | OperatorCast(fields: FunctionFields)
    | Unit(traditionGuard: bool, headerGuard: seq<string>, frontDecls: seq<string>)

  datatype Definition = Defaulted | Deleted | Plain

  /** Special members have a definition and initialisers, the others have text after the parameters. */
  datatype FunctionFields = FunctionFields(
    templateParameters: string, attributes: string, beforeName: string, parameters: seq<string>,
    afterParameters: string, initialisers: seq<string>, definition: Definition, signatureUnchanged: bool)

  /** A node of our or their revision. Revisions are never changed. */
  datatype RevNode = RevNode(
    sig: Sig, parent: Option<Id>, children: seq<Id>, orphanComment: bool, terminal: bool,
    text: Text, eol: int, access: int, firstEol: int)

  type Revision = map<Id, RevNode>

  /** Children of a merged base node come from all three graphs. The leading side gives the order. */
  datatype Ref = Base(id: Id) | Lead(id: Id) | Follow(id: Id)

  datatype BaseNode = BaseNode(terminal: bool, text: Text, eol: int, access: int, firstEol: int, children: seq<Ref>)

  /** A one-to-one matching of base nodes with the nodes of a revision, and the nodes the revision added. */
  datatype Matching = Matching(left: map<Id, Id>, right: map<Id, Id>, added: seq<Id>)

  datatype Favour = OurOrder | TheirOrder

  /** The side that gives the order of children, and the other one. */
  datatype Side = Leading | Following

  /** Everything a merge reads and never writes: start is the base graph before the merge, units the translation units
      in it, signature the hash of a base node from what never changes in it and from its current text. A matching is a
      hash table over base nodes; the bucket functions say where it puts a hash. */
  datatype World = World(
    ours: Revision, theirs: Revision, ourMatching: Matching, theirMatching: Matching,
    start: map<Id, BaseNode>, units: seq<Id>, signature: (Id, Text) -> Sig,
    ourBucket: Sig -> nat, theirBucket: Sig -> nat,
    favour: Favour, git: (string, string, string) -> string)
  {
    function Lead(): Revision { if favour == OurOrder then ours else theirs }
    function Follow(): Revision { if favour == OurOrder then theirs else ours }
    function LeadMatching(): Matching { if favour == OurOrder then ourMatching else theirMatching }
    function FollowMatching(): Matching { if favour == OurOrder then theirMatching else ourMatching }
    function Rev(side: Side): Revision { if side == Leading then Lead() else Follow() }
    function Table(side: Side): Matching { if side == Leading then LeadMatching() else FollowMatching() }
    function Bucket(side: Side, sig: Sig): nat {
      if (side == Leading) == (favour == OurOrder) then ourBucket(sig) else theirBucket(sig)
    }
  }

  ghost predicate OneToOne(m: Matching, base: set<Id>, rev: Revision) {
    (forall b :: b in m.left ==> b in base && m.left[b] in rev && m.left[b] in m.right && m.right[m.left[b]] == b) &&
    (forall r :: r in m.right ==> m.right[r] in m.left && m.left[m.right[r]] == r) &&
    (forall r :: r in m.added ==> r in rev && r !in m.right) && NoDup(m.added) && DistinctKeys(m, rev)
  }

  /** No two matched nodes of a revision compare equal: the table refuses the second. */
  ghost predicate DistinctKeys(m: Matching, rev: Revision) {
    forall r, s :: r in m.right && s in m.right && r in rev && s in rev && rev[r].sig == rev[s].sig ==> r == s
  }

  /** Parents and children point at each other, and no child is listed twice. */
  ghost predicate Linked(rev: Revision) {
    (forall p, c :: p in rev && c in rev[p].children ==> c in rev && rev[c].parent == Some(p)) &&
    (forall p :: p in rev ==> NoDup(rev[p].children))
  }

  ghost predicate WellFormed(w: World) {
    OneToOne(w.ourMatching, w.start.Keys, w.ours) && OneToOne(w.theirMatching, w.start.Keys, w.theirs) &&
    Linked(w.ours) && Linked(w.theirs) && NoDup(w.units) && forall u :: u in w.units ==> u in w.start
  }

  lemma SidesOf(w: World, side: Side)
    requires WellFormed(w)
    ensures OneToOne(w.Table(side), w.start.Keys, w.Rev(side)) && Linked(w.Rev(side))
  {
  }

  /** A base node survives if both revisions still have it. */
  predicate Survives(w: World, b: Id) {
    b in w.ourMatching.left && b in w.theirMatching.left
  }

  /** A survivor whose matches are nodes of the revisions, as they are in a well-formed world. */
  predicate Matched(w: World, b: Id) {
    Survives(w, b) && w.ourMatching.left[b] in w.ours && w.theirMatching.left[b] in w.theirs
  }

  // ---------- texts ----------

  function MergeText(w: World, our: string, base: string, their: string): string {
    if our == base then their else if their == base then our else w.git(our, base, their)
  }

  function MergeTexts(w: World, our: Text, base: Text, their: Text, terminal: bool): Text {
    var body := if terminal then MergeText(w, our.body, base.body, their.body) else base.body;
    Text(MergeText(w, our.comment, base.comment, their.comment),
         MergeText(w, our.signature, base.signature, their.signature),
         MergeText(w, our.name, base.name, their.name),
         body,
         if terminal then MergeFunction(w, our, base, their, body) else MergeUnit(our.extra, base.extra, their.extra))
  }

  /** Lines 124-211. A signature that one side left alone is not taken apart; otherwise its parts are merged one by
      one. */
  function MergeFunction(w: World, our: Text, base: Text, their: Text, body: string): Extra {
    if base.extra.NoExtra? || base.extra.Unit? then base.extra
    else if base.signature == our.signature || base.signature == their.signature then
      base.extra.(fields := base.extra.fields.(signatureUnchanged := true))
    else if !SameKind(our.extra, base.extra, their.extra) then base.extra
    else
      var o, b, t := our.extra.fields, base.extra.fields, their.extra.fields;
      var parts := MergeParts(w, o, b, t);
      base.extra.(fields :=
        if base.extra.SpecialMember? then
          parts.(definition := MergeDefinition(o.definition, b.definition, t.definition, body),
                 initialisers := StrVecUnion.Union(o.initialisers, b.initialisers, t.initialisers))
        else parts.(afterParameters := MergeText(w, o.afterParameters, b.afterParameters, t.afterParameters)))
  }

  predicate SameKind(our: Extra, base: Extra, their: Extra) {
    (base.Function? && our.Function? && their.Function?) ||
    (base.OperatorCast? && our.OperatorCast? && their.OperatorCast?) ||
    (base.SpecialMember? && our.SpecialMember? && their.SpecialMember?)
  }

  function MergeParts(w: World, our: FunctionFields, base: FunctionFields, their: FunctionFields): FunctionFields {
    base.(templateParameters := MergeText(w, our.templateParameters, base.templateParameters, their.templateParameters),
          attributes := MergeText(w, our.attributes, base.attributes, their.attributes),
          beforeName := MergeText(w, our.beforeName, base.beforeName, their.beforeName),
          parameters := StrVecUnion.Union(our.parameters, base.parameters, their.parameters))
  }

  /** Lines 167-176: whatever has a body now is plain. */
  function MergeDefinition(our: Definition, base: Definition, their: Definition, body: string): Definition {
    if body != "" then Plain else if our == base then their else if their == base then our else Plain
  }

  /** Lines 221-236. */
  function MergeUnit(our: Extra, base: Extra, their: Extra): Extra {
    if base.Unit? && our.Unit? && their.Unit? then
      Unit(our.traditionGuard, our.headerGuard, StrVecUnion.Union(our.frontDecls, base.frontDecls, their.frontDecls))
    else base
  }

  function OurText(w: World, b: Id): Text
    requires Matched(w, b)
  {
    w.ours[w.ourMatching.left[b]].text
  }

  function TheirText(w: World, b: Id): Text
    requires Matched(w, b)
  {
    w.theirs[w.theirMatching.left[b]].text
  }

  /** The text of a surviving node after the merge. */
  function FinalText(w: World, b: Id): Text
    requires b in w.start && Matched(w, b)
  {
    MergeTexts(w, OurText(w, b), w.start[b].text, TheirText(w, b), w.start[b].terminal)
  }

  /** Where at most one side changed a text, merging it a second time brings the base version back. */
  lemma MergedAgainReverts(w: World, our: Text, base: Text, their: Text, terminal: bool)
    ensures var again := MergeTexts(w, our, MergeTexts(w, our, base, their, terminal), their, terminal);
      (our.comment == base.comment || their.comment == base.comment ==> again.comment == base.comment) &&
      (our.signature == base.signature || their.signature == base.signature ==> again.signature == base.signature) &&
      (our.name == base.name || their.name == base.name ==> again.name == base.name) &&
      (our.body == base.body || their.body == base.body ==> again.body == base.body)
  {
  }

  // ---------- what the texts are merged to ----------

  /** What one side left as it was is as the other side has it; what both changed is left to git. */
  ghost predicate Settled(w: World, merged: string, our: string, base: string, their: string) {
    (our == base ==> merged == their) && (their == base ==> merged == our) &&
    (our != base && their != base ==> merged == w.git(our, base, their))
  }

  /** The list has what any of the three lists has, each once, in our order: what a side deletes comes back. */
  ghost predicate JoinsLists(merged: seq<string>, our: seq<string>, base: seq<string>, their: seq<string>) {
    NoDup(merged) && Elems(merged) == Elems(our) + Elems(base) + Elems(their) &&
    Restrict(merged, Elems(our)) == Dedup(our)
  }

  /** Comment, signature and name are settled for every node, the body for terminal nodes; others have none. */
  ghost predicate TextSettled(w: World, merged: Text, our: Text, base: Text, their: Text, terminal: bool) {
    Settled(w, merged.comment, our.comment, base.comment, their.comment) &&
    Settled(w, merged.signature, our.signature, base.signature, their.signature) &&
    Settled(w, merged.name, our.name, base.name, their.name) &&
    if terminal then Settled(w, merged.body, our.body, base.body, their.body) else merged.body == base.body
  }

  /** A member that got a body is defined by it; otherwise the definition is settled, and plain if both changed it. */
  ghost predicate DefinitionSettled(merged: Definition, our: Definition, base: Definition, their: Definition,
                                    body: string) {
    (body != "" ==> merged == Plain) &&
    (body == "" && our == base ==> merged == their) && (body == "" && their == base ==> merged == our) &&
    (our != base && their != base ==> merged == Plain)
  }

  /** The parts of a signature that both sides changed. */
  ghost predicate PartsSettled(w: World, merged: FunctionFields, our: FunctionFields, base: FunctionFields,
                               their: FunctionFields, special: bool, body: string) {
    Settled(w, merged.templateParameters, our.templateParameters, base.templateParameters, their.templateParameters) &&
    Settled(w, merged.attributes, our.attributes, base.attributes, their.attributes) &&
    Settled(w, merged.beforeName, our.beforeName, base.beforeName, their.beforeName) &&
    JoinsLists(merged.parameters, our.parameters, base.parameters, their.parameters) &&
    merged.signatureUnchanged == base.signatureUnchanged &&
    if special then
      DefinitionSettled(merged.definition, our.definition, base.definition, their.definition, body) &&
      JoinsLists(merged.initialisers, our.initialisers, base.initialisers, their.initialisers) &&
      merged.afterParameters == base.afterParameters
    else
      Settled(w, merged.afterParameters, our.afterParameters, base.afterParameters, their.afterParameters) &&
      merged.definition == base.definition && merged.initialisers == base.initialisers
  }

  /** The parts of a function's signature are settled one by one if and only if both sides changed the signature;
      otherwise they stay, and are marked as not to be used. */
  ghost predicate SignatureSettled(w: World, merged: Text, our: Text, base: Text, their: Text)
    requires SameKind(our.extra, base.extra, their.extra)
  {
    SameKind(merged.extra, base.extra, their.extra) &&
    if our.signature == base.signature || their.signature == base.signature then
      merged.extra.fields == base.extra.fields.(signatureUnchanged := true)
    else
      PartsSettled(w, merged.extra.fields, our.extra.fields, base.extra.fields, their.extra.fields,
                   base.extra.SpecialMember?, merged.body)
  }

  /** The front declarations are joined, so that none can be deleted, not even by both sides; the guards are ours. */
  ghost predicate UnitSettled(merged: Extra, our: Extra, base: Extra, their: Extra)
    requires our.Unit? && base.Unit? && their.Unit?
  {
    merged.Unit? && JoinsLists(merged.frontDecls, our.frontDecls, base.frontDecls, their.frontDecls) &&
    merged.traditionGuard == our.traditionGuard && merged.headerGuard == our.headerGuard
  }

  /** What the whole text of a node is merged to. */
  ghost predicate AllSettled(w: World, merged: Text, our: Text, base: Text, their: Text, terminal: bool) {
    TextSettled(w, merged, our, base, their, terminal) &&
    (terminal && SameKind(our.extra, base.extra, their.extra) ==> SignatureSettled(w, merged, our, base, their)) &&
    (!terminal && our.extra.Unit? && base.extra.Unit? && their.extra.Unit? ==>
      UnitSettled(merged.extra, our.extra, base.extra, their.extra)) &&
    (base.extra.NoExtra? ==> merged.extra == base.extra)
  }

  lemma FinalTextSettled(w: World, b: Id)
    requires b in w.start && Matched(w, b)
    ensures AllSettled(w, FinalText(w, b), OurText(w, b), w.start[b].text, TheirText(w, b), w.start[b].terminal)
  {
    var our, base, their := OurText(w, b), w.start[b].text, TheirText(w, b);
    if w.start[b].terminal && SameKind(our.extra, base.extra, their.extra) {
      SignatureIsSettled(w, our, base, their);
    }
    if our.extra.Unit? && base.extra.Unit? && their.extra.Unit? {
      StrVecUnion.UnionContent(our.extra.frontDecls, base.extra.frontDecls, their.extra.frontDecls);
    }
  }

  lemma SignatureIsSettled(w: World, our: Text, base: Text, their: Text)
    requires SameKind(our.extra, base.extra, their.extra)
    ensures SignatureSettled(w, MergeTexts(w, our, base, their, true), our, base, their)
  {
    var o, f, t := our.extra.fields, base.extra.fields, their.extra.fields;
    StrVecUnion.UnionContent(o.parameters, f.parameters, t.parameters);
    StrVecUnion.UnionContent(o.initialisers, f.initialisers, t.initialisers);
  }

  // ---------- signatures and lookups ----------

  /** The signature under which a base node was stored. */
  function StoredSig(w: World, b: Id): Sig
    requires b in w.start
  {
    w.signature(b, w.start[b].text)
  }

  function FinalSig(w: World, b: Id): Sig
    requires b in w.start && Matched(w, b)
  {
    w.signature(b, FinalText(w, b))
  }

  /** A lookup by a signature may find x: it is where the table looks, and it compares equal now. */
  predicate Hit(w: World, side: Side, base: map<Id, BaseNode>, sig: Sig, x: Id) {
    x in w.Table(side).left && x in w.start && x in base &&
    w.Bucket(side, StoredSig(w, x)) == w.Bucket(side, sig) && w.signature(x, base[x].text) == sig
  }

  /** No other node has, or gets, the signature that a node in its bucket has at the start. */
  ghost predicate NoClash(w: World, side: Side) {
    forall x, y :: !Clash(w, side, x, y)
  }

  ghost predicate Clash(w: World, side: Side, x: Id, y: Id) {
    x in w.Table(side).left && x in w.start && y in w.start && x != y &&
    w.Bucket(side, StoredSig(w, x)) == w.Bucket(side, StoredSig(w, y)) &&
    (StoredSig(w, x) == StoredSig(w, y) || (Matched(w, x) && FinalSig(w, x) == StoredSig(w, y)))
  }

  // ---------- children ----------

  /** Base nodes are listed when they have been merged, so they compare by their new text. */
  function SigOf(w: World, r: Ref): Sig {
    match r
    case Base(id) => if id in w.start && Matched(w, id) then FinalSig(w, id) else 0
    case Lead(id) => if id in w.Lead() then w.Lead()[id].sig else 0
    case Follow(id) => if id in w.Follow() then w.Follow()[id].sig else 0
  }

  /** A child is found in the leading table as any key of its signature. */
  predicate IsKey(w: World, c: Id, r: Id) {
    c in w.Lead() && r in w.Lead() && r in w.LeadMatching().right && w.Lead()[c].sig == w.Lead()[r].sig
  }

  ghost function KeyOf(w: World, c: Id): (r: Option<Id>)
    ensures r.Some? ==> IsKey(w, c, r.value)
    ensures r.None? ==> forall k :: !IsKey(w, c, k)
  {
    if exists k :: IsKey(w, c, k) then
      var k :| IsKey(w, c, k);
      Some(k)
    else None
  }

  /** There is one key at most. */
  lemma OneKey(w: World, c: Id, r: Id)
    requires WellFormed(w) && IsKey(w, c, r)
    ensures KeyOf(w, c) == Some(r)
  {
    SidesOf(w, Leading);
    assert IsKey(w, c, KeyOf(w, c).value);
  }

  /** A matched node is found as itself. */
  lemma OwnKey(w: World, c: Id)
    requires WellFormed(w) && c in w.LeadMatching().right
    ensures c in w.Lead() && KeyOf(w, c) == Some(c)
  {
    SidesOf(w, Leading);
    var b := w.LeadMatching().right[c];
    assert w.LeadMatching().left[b] == c;
    OneKey(w, c, c);
  }

  /** The base node that is merged for a child of the leading side. */
  ghost function StandsFor(w: World, c: Id): Option<Id> {
    match KeyOf(w, c)
    case None => None
    case Some(r) => Some(w.LeadMatching().right[r])
  }

  /** What is listed for a child of the leading side: itself if it is not in the table, its base node if that
      survives. */
  ghost function SurvivorOf(w: World, c: Id): seq<Ref> {
    match StandsFor(w, c)
    case None => [Lead(c)]
    case Some(b) => if Survives(w, b) then [Base(b)] else []
  }

  /** The children of the leading side that stay. */
  ghost function Survivors(w: World, children: seq<Id>): seq<Ref> {
    if children == [] then []
    else Survivors(w, children[..|children| - 1]) + SurvivorOf(w, children[|children| - 1])
  }

  /** The rewritten signature of b is kept in the bucket where b is. */
  predicate KeepsBucket(w: World, side: Side, b: Id)
    requires b in w.start && Matched(w, b)
  {
    w.Bucket(side, StoredSig(w, b)) == w.Bucket(side, FinalSig(w, b))
  }

  /** filterAddedNodes before sorting: added nodes whose parent has the signature of b's match. */
  predicate AddedUnder(rev: Revision, m: Matching, b: Id, r: Id) {
    b in m.left && m.left[b] in rev && r in rev && rev[r].parent.Some? && rev[r].parent.value in rev &&
    rev[rev[r].parent.value].sig == rev[m.left[b]].sig
  }

  predicate AddedBelow(rev: Revision, m: Matching, found: Option<Id>, r: Id) {
    found.Some? && AddedUnder(rev, m, found.value, r)
  }

  function Filtered(rev: Revision, m: Matching, found: Option<Id>, added: seq<Id>): seq<Id> {
    if added == [] then []
    else
      var r := added[|added| - 1];
      var rest := Filtered(rev, m, found, added[..|added| - 1]);
      if AddedBelow(rev, m, found, r) then rest + [r] else rest
  }

  /** Insertion into a list sorted by ID. */
  function InsertSorted(s: seq<Id>, x: Id): seq<Id> {
    if s == [] then [x]
    else if s[|s| - 1] <= x then s + [x]
    else InsertSorted(s[..|s| - 1], x) + [s[|s| - 1]]
  }

  /** std::sort by ID. */
  function SortById(s: seq<Id>): seq<Id> {
    if s == [] then [] else InsertSorted(SortById(s[..|s| - 1]), s[|s| - 1])
  }

  function AddedNodes(rev: Revision, m: Matching, found: Option<Id>): seq<Id> {
    SortById(Filtered(rev, m, found, m.added))
  }

  predicate SharesSignature(rev: Revision, r: Id, other: Revision, others: seq<Id>) {
    exists k :: 0 <= k < |others| && r in rev && others[k] in other && other[others[k]].sig == rev[r].sig
  }

  /** removeDuplicates: what the following side added and the leading side did not. */
  function Fresh(rev: Revision, nodes: seq<Id>, other: Revision, others: seq<Id>): seq<Id> {
    if nodes == [] then []
    else
      var r := nodes[|nodes| - 1];
      var rest := Fresh(rev, nodes[..|nodes| - 1], other, others);
      if SharesSignature(rev, r, other, others) then rest else rest + [r]
  }

  /** What is inserted when the two lookups of the parent found l in the leading and f in the following table. */
  function NewFollowers(w: World, l: Option<Id>, f: Option<Id>): seq<Id> {
    Fresh(w.Follow(), AddedNodes(w.Follow(), w.FollowMatching(), f),
          w.Lead(), AddedNodes(w.Lead(), w.LeadMatching(), l))
  }

  // ---------- where a follower goes ----------

  /** The first position whose node has the signature, or the length. */
  function FirstWithSig(w: World, items: seq<Ref>, sig: Sig): (p: nat)
    ensures p <= |items|
    ensures p < |items| ==> SigOf(w, items[p]) == sig
    ensures forall k :: 0 <= k < p ==> SigOf(w, items[k]) != sig
  {
    if items == [] then 0
    else
      var p := FirstWithSig(w, items[..|items| - 1], sig);
      if p < |items| - 1 then p
      else if SigOf(w, items[|items| - 1]) == sig then |items| - 1 else |items|
  }

  /** The sibling at k is the nearest one before position p that is no orphan comment. */
  ghost predicate NearestBefore(rev: Revision, siblings: seq<Id>, p: nat, k: int) {
    0 <= k < p <= |siblings| && !IsOrphan(rev, siblings[k]) && forall m :: k < m < p ==> IsOrphan(rev, siblings[m])
  }

  /** The sibling at k is the nearest one after position p that is no orphan comment. */
  ghost predicate NearestAfter(rev: Revision, siblings: seq<Id>, p: nat, k: int) {
    p < k < |siblings| && !IsOrphan(rev, siblings[k]) && forall m :: p < m < k ==> IsOrphan(rev, siblings[m])
  }

  /** The nearest sibling before position p that is not an orphan comment. */
  function PrevSibling(rev: Revision, siblings: seq<Id>, p: nat): (r: Option<Id>)
    requires p <= |siblings|
    ensures r.Some? ==> exists k :: NearestBefore(rev, siblings, p, k) && siblings[k] == r.value
    ensures r.None? ==> forall k :: 0 <= k < p ==> IsOrphan(rev, siblings[k])
  {
    if p == 0 then None
    else if !IsOrphan(rev, siblings[p - 1]) then assert NearestBefore(rev, siblings, p, p - 1); Some(siblings[p - 1])
    else
      assert forall k :: NearestBefore(rev, siblings, p - 1, k) ==> NearestBefore(rev, siblings, p, k);
      PrevSibling(rev, siblings, p - 1)
  }

  /** The nearest sibling after position p that is not an orphan comment. */
  function NextSibling(rev: Revision, siblings: seq<Id>, p: nat): (r: Option<Id>)
    requires p < |siblings|
    ensures r.Some? ==> exists k :: NearestAfter(rev, siblings, p, k) && siblings[k] == r.value
    ensures r.None? ==> forall k :: p < k < |siblings| ==> IsOrphan(rev, siblings[k])
    decreases |siblings| - p
  {
    if p + 1 == |siblings| then None
    else if !IsOrphan(rev, siblings[p + 1]) then assert NearestAfter(rev, siblings, p, p + 1); Some(siblings[p + 1])
    else
      assert forall k :: NearestAfter(rev, siblings, p + 1, k) ==> NearestAfter(rev, siblings, p, k);
      NextSibling(rev, siblings, p + 1)
  }

  predicate IsOrphan(rev: Revision, id: Id) {
    id in rev && rev[id].orphanComment
  }

  function SigIn(rev: Revision, id: Id): Sig {
    if id in rev then rev[id].sig else 0
  }

  function FirstSibling(rev: Revision, siblings: seq<Id>, sig: Sig): (p: nat)
    ensures p <= |siblings|
    ensures p < |siblings| ==> SigIn(rev, siblings[p]) == sig
    ensures forall k :: 0 <= k < p ==> SigIn(rev, siblings[k]) != sig
  {
    if siblings == [] then 0
    else
      var p := FirstSibling(rev, siblings[..|siblings| - 1], sig);
      if p < |siblings| - 1 then p
      else if SigIn(rev, siblings[|siblings| - 1]) == sig then |siblings| - 1 else |siblings|
  }

  datatype Neighbors = Neighbors(prev: Option<Id>, next: Option<Id>)

  /** getNeighbors. */
  function NeighborsOf(rev: Revision, id: Id): Option<Neighbors> {
    if id !in rev || rev[id].parent.None? || rev[id].parent.value !in rev then None
    else
      var siblings := rev[rev[id].parent.value].children;
      var p := FirstSibling(rev, siblings, rev[id].sig);
      if p == |siblings| then None
      else Some(Neighbors(PrevSibling(rev, siblings, p), NextSibling(rev, siblings, p)))
  }

  /** After the previous sibling, else before the next one, else at the end. */
  function Place(w: World, items: seq<Ref>, id: Id): (p: nat)
    ensures p <= |items|
  {
    match NeighborsOf(w.Follow(), id)
    case None => |items|
    case Some(n) =>
      var afterPrev := if n.prev.Some? then FirstWithSig(w, items, SigIn(w.Follow(), n.prev.value)) else |items|;
      if afterPrev < |items| then afterPrev + 1
      else if n.next.Some? then FirstWithSig(w, items, SigIn(w.Follow(), n.next.value))
      else |items|
  }

  function InsertFollower(w: World, items: seq<Ref>, id: Id): seq<Ref> {
    var p := Place(w, items, id);
    items[..p] + [Follow(id)] + items[p..]
  }

  function InsertFollowers(w: World, items: seq<Ref>, ids: seq<Id>): seq<Ref> {
    if ids == [] then items
    else InsertFollower(w, InsertFollowers(w, items, ids[..|ids| - 1]), ids[|ids| - 1])
  }

  /** The node at j is the first of the list that has the signature. */
  ghost predicate FirstEqualAt(w: World, items: seq<Ref>, sig: Sig, j: int) {
    0 <= j < |items| && SigOf(w, items[j]) == sig && forall m :: 0 <= m < j ==> SigOf(w, items[m]) != sig
  }

  /** Among the children of its parent, the node is the one at p, or another one with its signature is first. */
  ghost predicate SiblingAt(rev: Revision, id: Id, p: nat) {
    id in rev && rev[id].parent.Some? && rev[id].parent.value in rev && p < |rev[rev[id].parent.value].children| &&
    SigIn(rev, rev[rev[id].parent.value].children[p]) == rev[id].sig &&
    forall m :: 0 <= m < p ==> SigIn(rev, rev[rev[id].parent.value].children[m]) != rev[id].sig
  }

  /** The nearest earlier sibling k has its first equal in the list at j. */
  ghost predicate Behind(w: World, items: seq<Ref>, id: Id, p: nat, k: int, j: int)
    requires SiblingAt(w.Follow(), id, p)
  {
    var siblings := w.Follow()[w.Follow()[id].parent.value].children;
    NearestBefore(w.Follow(), siblings, p, k) && FirstEqualAt(w, items, SigIn(w.Follow(), siblings[k]), j)
  }

  /** The nearest later sibling k has its first equal in the list at j. */
  ghost predicate InFront(w: World, items: seq<Ref>, id: Id, p: nat, k: int, j: int)
    requires SiblingAt(w.Follow(), id, p)
  {
    var siblings := w.Follow()[w.Follow()[id].parent.value].children;
    NearestAfter(w.Follow(), siblings, p, k) && FirstEqualAt(w, items, SigIn(w.Follow(), siblings[k]), j)
  }

  lemma PlaceByNeighbors(w: World, items: seq<Ref>, id: Id, p: nat)
    requires SiblingAt(w.Follow(), id, p)
    ensures var siblings := w.Follow()[w.Follow()[id].parent.value].children;
      NeighborsOf(w.Follow(), id) ==
        Some(Neighbors(PrevSibling(w.Follow(), siblings, p), NextSibling(w.Follow(), siblings, p)))
  {
    var rev := w.Follow();
    assert FirstSibling(rev, rev[rev[id].parent.value].children, rev[id].sig) == p;
  }

  lemma OneNearest(rev: Revision, siblings: seq<Id>, p: nat, k: int)
    requires p < |siblings|
    ensures NearestBefore(rev, siblings, p, k) ==> PrevSibling(rev, siblings, p) == Some(siblings[k])
    ensures NearestAfter(rev, siblings, p, k) ==> NextSibling(rev, siblings, p) == Some(siblings[k])
  {
    var prev, next := PrevSibling(rev, siblings, p), NextSibling(rev, siblings, p);
    if NearestBefore(rev, siblings, p, k) {
      var l :| NearestBefore(rev, siblings, p, l) && siblings[l] == prev.value;
      assert l == k;
    }
    if NearestAfter(rev, siblings, p, k) {
      var l :| NearestAfter(rev, siblings, p, l) && siblings[l] == next.value;
      assert l == k;
    }
  }

  /** An added node stands directly behind the first equal of its nearest earlier sibling, if there is one. */
  lemma InsertedBehind(w: World, items: seq<Ref>, id: Id, p: nat, k: int, j: int)
    requires SiblingAt(w.Follow(), id, p) && Behind(w, items, id, p, k, j)
    ensures InsertFollower(w, items, id) == items[..j + 1] + [Follow(id)] + items[j + 1..]
  {
    var siblings := w.Follow()[w.Follow()[id].parent.value].children;
    PlaceByNeighbors(w, items, id, p);
    OneNearest(w.Follow(), siblings, p, k);
    assert FirstWithSig(w, items, SigIn(w.Follow(), siblings[k])) == j;
  }

  /** Otherwise, directly before the first equal of its nearest later sibling, if there is one. */
  lemma InsertedInFront(w: World, items: seq<Ref>, id: Id, p: nat, k: int, j: int)
    requires SiblingAt(w.Follow(), id, p) && InFront(w, items, id, p, k, j)
    requires forall k', j' :: !Behind(w, items, id, p, k', j')
    ensures InsertFollower(w, items, id) == items[..j] + [Follow(id)] + items[j..]
  {
    var siblings := w.Follow()[w.Follow()[id].parent.value].children;
    PlaceByNeighbors(w, items, id, p);
    OneNearest(w.Follow(), siblings, p, k);
    NotBehind(w, items, id, p);
    assert FirstWithSig(w, items, SigIn(w.Follow(), siblings[k])) == j;
  }

  /** Otherwise, last. */
  lemma InsertedAtEnd(w: World, items: seq<Ref>, id: Id, p: nat)
    requires SiblingAt(w.Follow(), id, p)
    requires forall k, j :: !Behind(w, items, id, p, k, j) && !InFront(w, items, id, p, k, j)
    ensures InsertFollower(w, items, id) == items + [Follow(id)]
  {
    PlaceByNeighbors(w, items, id, p);
    NotBehind(w, items, id, p);
    NotInFront(w, items, id, p);
    assert items[..|items|] + [Follow(id)] + items[|items|..] == items + [Follow(id)];
  }

  lemma NotBehind(w: World, items: seq<Ref>, id: Id, p: nat)
    requires SiblingAt(w.Follow(), id, p) && forall k, j :: !Behind(w, items, id, p, k, j)
    ensures var prev := PrevSibling(w.Follow(), w.Follow()[w.Follow()[id].parent.value].children, p);
      prev.Some? ==> FirstWithSig(w, items, SigIn(w.Follow(), prev.value)) == |items|
  {
    var rev := w.Follow();
    var siblings := rev[rev[id].parent.value].children;
    var prev := PrevSibling(rev, siblings, p);
    if prev.Some? {
      var k :| NearestBefore(rev, siblings, p, k) && siblings[k] == prev.value;
      assert !Behind(w, items, id, p, k, FirstWithSig(w, items, SigIn(rev, prev.value)));
    }
  }

  lemma NotInFront(w: World, items: seq<Ref>, id: Id, p: nat)
    requires SiblingAt(w.Follow(), id, p) && forall k, j :: !InFront(w, items, id, p, k, j)
    ensures var next := NextSibling(w.Follow(), w.Follow()[w.Follow()[id].parent.value].children, p);
      next.Some? ==> FirstWithSig(w, items, SigIn(w.Follow(), next.value)) == |items|
  {
    var rev := w.Follow();
    var siblings := rev[rev[id].parent.value].children;
    var next := NextSibling(rev, siblings, p);
    if next.Some? {
      var k :| NearestAfter(rev, siblings, p, k) && siblings[k] == next.value;
      assert !InFront(w, items, id, p, k, FirstWithSig(w, items, SigIn(rev, next.value)));
    }
  }

  /** A node without siblings, not even itself, stands last. */
  lemma InsertedLast(w: World, items: seq<Ref>, id: Id)
    requires forall p :: !SiblingAt(w.Follow(), id, p)
    ensures InsertFollower(w, items, id) == items + [Follow(id)]
  {
    var rev := w.Follow();
    if id in rev && rev[id].parent.Some? && rev[id].parent.value in rev {
      var p := FirstSibling(rev, rev[rev[id].parent.value].children, rev[id].sig);
      assert !SiblingAt(rev, id, p);
    }
    assert items[..|items|] + [Follow(id)] + items[|items|..] == items + [Follow(id)];
  }

  /** The added nodes are inserted in turn, each beside what stands there by then. */
  lemma {:induction false} InsertedInTurn(w: World, items: seq<Ref>, first: seq<Id>, rest: seq<Id>)
    ensures InsertFollowers(w, items, []) == items
    ensures InsertFollowers(w, items, first + rest) == InsertFollowers(w, InsertFollowers(w, items, first), rest)
    ensures |rest| == 1 ==> InsertFollowers(w, items, rest) == InsertFollower(w, items, rest[0])
  {
    if rest == [] {
      assert first + rest == first;
    } else {
      InsertedInTurn(w, items, first, rest[..|rest| - 1]);
      assert (first + rest)[..|first + rest| - 1] == first + rest[..|rest| - 1];
    }
  }

  /** The merged list for o, b's match on the leading side, when the lookups found l and f. */
  ghost function MergedChildren(w: World, o: Id, l: Option<Id>, f: Option<Id>): seq<Ref>
    requires o in w.Lead()
  {
    InsertFollowers(w, Survivors(w, w.Lead()[o].children), NewFollowers(w, l, f))
  }

  // ---------- what the merged list of children is ----------

  /** Two different nodes of the leading side stand for one base node that survives. */
  ghost predicate Twins(w: World, c: Id, d: Id) {
    c != d && StandsFor(w, c).Some? && StandsFor(w, c) == StandsFor(w, d) && Survives(w, StandsFor(w, c).value)
  }

  lemma {:induction false} SurvivorAt(w: World, children: seq<Id>, r: Ref)
    ensures r in Survivors(w, children) <==> exists k :: 0 <= k < |children| && r in SurvivorOf(w, children[k])
  {
    if children != [] {
      var rest, c := children[..|children| - 1], children[|children| - 1];
      SurvivorAt(w, rest, r);
      if r in SurvivorOf(w, c) {
        assert r in SurvivorOf(w, children[|children| - 1]);
      } else if k :| 0 <= k < |children| && r in SurvivorOf(w, children[k]) {
        assert rest[k] == children[k];
      }
    }
  }

  ghost predicate TwinFree(w: World, children: seq<Id>) {
    forall i, j :: 0 <= i < j < |children| ==> !Twins(w, children[i], children[j])
  }

  lemma TwinFreeStep(w: World, rest: seq<Id>, c: Id)
    ensures TwinFree(w, rest + [c]) <==> TwinFree(w, rest) && forall i :: 0 <= i < |rest| ==> !Twins(w, rest[i], c)
  {
    var all := rest + [c];
    assert all[|rest|] == c && forall k :: 0 <= k < |rest| ==> all[k] == rest[k];
    if TwinFree(w, all) {
      forall i | 0 <= i < |rest| ensures !Twins(w, rest[i], c) {
        assert !Twins(w, all[i], all[|rest|]);
      }
    }
  }

  /** A list of children has a base node twice if and only if two of the children stand for it. */
  lemma {:induction false} ListedTwiceIff(w: World, children: seq<Id>)
    requires WellFormed(w) && NoDup(children)
    ensures NoDup(Survivors(w, children)) <==> TwinFree(w, children)
  {
    if children != [] {
      var rest, c := children[..|children| - 1], children[|children| - 1];
      assert children == rest + [c];
      ListedTwiceIff(w, rest);
      LastTwinIff(w, rest, c);
      NoDupWithLast(Survivors(w, rest), SurvivorOf(w, c));
      TwinFreeStep(w, rest, c);
    }
  }

  lemma NoDupWithLast(a: seq<Ref>, b: seq<Ref>)
    requires |b| <= 1
    ensures NoDup(a + b) <==> NoDup(a) && forall r :: r in b ==> r !in a
  {
    var s := a + b;
    if NoDup(s) {
      forall i, j | 0 <= i < j < |a| ensures a[i] != a[j] {
        assert s[i] == a[i] && s[j] == a[j];
      }
      forall r | r in b ensures r !in a {
        assert s[|a|] == r && forall k :: 0 <= k < |a| ==> s[k] == a[k];
      }
    } else if NoDup(a) {
      var i, j :| 0 <= i < j < |s| && s[i] == s[j];
      assert s[i] in a && s[j] in b;
    }
  }

  lemma LastTwinIff(w: World, rest: seq<Id>, c: Id)
    requires WellFormed(w) && c !in rest
    ensures (exists r :: r in SurvivorOf(w, c) && r in Survivors(w, rest)) <==>
      exists i :: 0 <= i < |rest| && Twins(w, rest[i], c)
  {
    if r :| r in SurvivorOf(w, c) && r in Survivors(w, rest) {
      SurvivorAt(w, rest, r);
      var k :| 0 <= k < |rest| && r in SurvivorOf(w, rest[k]);
      assert Twins(w, rest[k], c);
    }
    if i :| 0 <= i < |rest| && Twins(w, rest[i], c) {
      var r := Base(StandsFor(w, c).value);
      assert r in SurvivorOf(w, c) && r in SurvivorOf(w, rest[i]);
      SurvivorAt(w, rest, r);
    }
  }

  lemma {:induction false} FilteredContent(rev: Revision, m: Matching, found: Option<Id>, added: seq<Id>)
    requires NoDup(added)
    ensures forall r :: r in Filtered(rev, m, found, added) <==> r in added && AddedBelow(rev, m, found, r)
    ensures NoDup(Filtered(rev, m, found, added))
  {
    if added != [] {
      assert added == added[..|added| - 1] + [added[|added| - 1]];
      FilteredContent(rev, m, found, added[..|added| - 1]);
    }
  }

  ghost predicate Ascending(s: seq<Id>) {
    forall i, j :: 0 <= i < j < |s| ==> s[i] < s[j]
  }

  lemma {:induction false} InsertSortedContent(s: seq<Id>, x: Id)
    requires Ascending(s) && x !in s
    ensures forall y :: y in InsertSorted(s, x) <==> y in s || y == x
    ensures Ascending(InsertSorted(s, x))
  {
    if s != [] && s[|s| - 1] > x {
      assert s == s[..|s| - 1] + [s[|s| - 1]];
      InsertSortedContent(s[..|s| - 1], x);
      var r := InsertSorted(s[..|s| - 1], x);
      forall i | 0 <= i < |r| ensures r[i] < s[|s| - 1] {
        assert r[i] in r;
      }
    }
  }

  /** The sort keeps exactly the nodes it is given, in the order of their IDs. */
  lemma {:induction false} SortContent(s: seq<Id>)
    requires NoDup(s)
    ensures forall y :: y in SortById(s) <==> y in s
    ensures Ascending(SortById(s))
  {
    if s != [] {
      assert s == s[..|s| - 1] + [s[|s| - 1]];
      SortContent(s[..|s| - 1]);
      InsertSortedContent(SortById(s[..|s| - 1]), s[|s| - 1]);
    }
  }

  lemma AddedNodesContent(rev: Revision, m: Matching, found: Option<Id>)
    requires NoDup(m.added)
    ensures forall r :: r in AddedNodes(rev, m, found) <==> r in m.added && AddedBelow(rev, m, found, r)
    ensures NoDup(AddedNodes(rev, m, found)) && Ascending(AddedNodes(rev, m, found))
  {
    var f := Filtered(rev, m, found, m.added);
    FilteredContent(rev, m, found, m.added);
    SortContent(f);
  }

  lemma {:induction false} FreshContent(rev: Revision, nodes: seq<Id>, other: Revision, others: seq<Id>)
    requires NoDup(nodes)
    ensures forall r :: r in Fresh(rev, nodes, other, others) <==> r in nodes && !SharesSignature(rev, r, other, others)
    ensures NoDup(Fresh(rev, nodes, other, others))
  {
    if nodes != [] {
      assert nodes == nodes[..|nodes| - 1] + [nodes[|nodes| - 1]];
      FreshContent(rev, nodes[..|nodes| - 1], other, others);
    }
  }

  lemma {:induction false} FreshAscending(rev: Revision, nodes: seq<Id>, other: Revision, others: seq<Id>)
    requires Ascending(nodes)
    ensures Ascending(Fresh(rev, nodes, other, others))
    ensures forall r :: r in Fresh(rev, nodes, other, others) ==> r in nodes
  {
    if nodes != [] {
      var init, last := nodes[..|nodes| - 1], nodes[|nodes| - 1];
      FreshAscending(rev, init, other, others);
      var rest := Fresh(rev, init, other, others);
      forall i | 0 <= i < |rest| ensures rest[i] < last {
        assert rest[i] in init;
      }
    }
  }

  /** Inserting an element changes neither the others nor their order. */
  lemma InsertKeepsOrder(items: seq<Ref>, p: nat, x: Ref, keep: set<Ref>)
    requires p <= |items| && x !in keep
    ensures Restrict(items[..p] + [x] + items[p..], keep) == Restrict(items, keep)
  {
    RestrictConcat(items[..p] + [x], items[p..], keep);
    RestrictConcat(items[..p], [x], keep);
    RestrictNone([x], keep);
    RestrictConcat(items[..p], items[p..], keep);
    assert items[..p] + items[p..] == items;
  }

  lemma {:induction false} InsertFollowersContent(w: World, items: seq<Ref>, ids: seq<Id>)
    requires NoDup(ids) && forall r :: r in items ==> !r.Follow?
    ensures Restrict(InsertFollowers(w, items, ids), Elems(items)) == items
    ensures forall r :: r in InsertFollowers(w, items, ids) <==> r in items || (r.Follow? && r.id in ids)
    ensures NoDup(InsertFollowers(w, items, ids)) <==> NoDup(items)
  {
    if ids == [] {
      RestrictAll(items, Elems(items));
    } else {
      var rest, id := ids[..|ids| - 1], ids[|ids| - 1];
      assert ids == rest + [id];
      InsertFollowersContent(w, items, rest);
      var m := InsertFollowers(w, items, rest);
      var p := Place(w, m, id);
      InsertKeepsOrder(m, p, Follow(id), Elems(items));
      InsertedContent(m, p, Follow(id));
    }
  }

  lemma InsertedContent(m: seq<Ref>, p: nat, x: Ref)
    requires p <= |m| && x !in m
    ensures forall r :: r in m[..p] + [x] + m[p..] <==> r in m || r == x
    ensures NoDup(m[..p] + [x] + m[p..]) <==> NoDup(m)
  {
    assert m == m[..p] + m[p..];
    var n := m[..p] + [x] + m[p..];
    forall i, j | 0 <= i < j < |n| && NoDup(m) ensures n[i] != n[j] {
      assert n[i] == if i < p then m[i] else if i == p then x else m[i - 1];
      assert n[j] == if j < p then m[j] else if j == p then x else m[j - 1];
    }
    forall i, j | 0 <= i < j < |m| && NoDup(n) ensures m[i] != m[j] {
      var a, b := if i < p then i else i + 1, if j < p then j else j + 1;
      assert n[a] == m[i] && n[b] == m[j] && n[a] != n[b];
    }
  }

  /** The leading side also added, under the parent it looked up, a node of this signature. */
  ghost predicate AlsoAddedByLead(w: World, l: Option<Id>, f: Id) {
    f in w.Follow() &&
    exists n :: n in w.LeadMatching().added && AddedBelow(w.Lead(), w.LeadMatching(), l, n) &&
                w.Lead()[n].sig == w.Follow()[f].sig
  }

  /** A node that only the following side added, under the parents the lookups found. */
  ghost predicate NewBelow(w: World, l: Option<Id>, found: Option<Id>, f: Id) {
    f in w.FollowMatching().added && AddedBelow(w.Follow(), w.FollowMatching(), found, f) && !AlsoAddedByLead(w, l, f)
  }

  /** What the first phase lists: children that stand for nothing, and surviving base nodes for which a child stands. */
  ghost predicate Stays(w: World, o: Id, r: Ref)
    requires o in w.Lead()
  {
    match r
    case Lead(c) => c in w.Lead()[o].children && StandsFor(w, c).None?
    case Base(x) => Survives(w, x) && exists c :: c in w.Lead()[o].children && StandsFor(w, c) == Some(x)
    case Follow(_) => false
  }

  lemma SurvivorsContent(w: World, o: Id, r: Ref)
    requires o in w.Lead()
    ensures r in Survivors(w, w.Lead()[o].children) <==> Stays(w, o, r)
  {
    var children := w.Lead()[o].children;
    SurvivorAt(w, children, r);
    if Stays(w, o, r) {
      var c :| c in children && r in SurvivorOf(w, c);
      var k :| 0 <= k < |children| && children[k] == c;
    }
  }

  /** What is listed stands in the order of the children. */
  lemma {:induction false} SurvivorsInOrder(w: World, children: seq<Id>, i: nat, j: nat, r: Ref, q: Ref)
    requires i < j < |children| && r in SurvivorOf(w, children[i]) && q in SurvivorOf(w, children[j])
    ensures Before(Survivors(w, children), r, q)
    decreases |children|
  {
    var rest, c := children[..|children| - 1], children[|children| - 1];
    var before, last := Survivors(w, rest), SurvivorOf(w, c);
    if j == |rest| {
      SurvivorAt(w, rest, r);
      BeforeInConcat(before, last, r, q);
    } else {
      SurvivorsInOrder(w, rest, i, j, r, q);
      var a, b :| 0 <= a < b < |before| && before[a] == r && before[b] == q;
      assert (before + last)[a] == r && (before + last)[b] == q;
    }
  }

  /** What one expects: the children that are not matched, and the surviving base nodes matched with the others. */
  ghost predicate Kept(w: World, o: Id, r: Ref)
    requires o in w.Lead()
  {
    match r
    case Lead(c) => c in w.Lead()[o].children && c !in w.LeadMatching().right
    case Base(x) => Survives(w, x) && w.LeadMatching().left[x] in w.Lead()[o].children
    case Follow(_) => false
  }

  /** An unmatched node that is found in the table as another node, of the same signature. */
  ghost predicate Copy(w: World, c: Id) {
    c !in w.LeadMatching().right && StandsFor(w, c).Some?
  }

  /** The first phase lists what one expects if and only if no child is a copy of a matched node. */
  lemma KeptIff(w: World, o: Id)
    requires WellFormed(w) && o in w.Lead()
    ensures (forall r :: r in Survivors(w, w.Lead()[o].children) <==> Kept(w, o, r)) <==>
      forall c :: c in w.Lead()[o].children ==> !Copy(w, c)
  {
    var children := w.Lead()[o].children;
    if c :| c in children && Copy(w, c) {
      SurvivorsContent(w, o, Lead(c));
      assert Kept(w, o, Lead(c)) && Lead(c) !in Survivors(w, children);
    } else {
      forall r ensures r in Survivors(w, children) <==> Kept(w, o, r) {
        SurvivorsContent(w, o, r);
        KeptWithoutCopies(w, o, r);
      }
    }
  }

  lemma KeptWithoutCopies(w: World, o: Id, r: Ref)
    requires WellFormed(w) && o in w.Lead() && forall c :: c in w.Lead()[o].children ==> !Copy(w, c)
    ensures Stays(w, o, r) <==> Kept(w, o, r)
  {
    SidesOf(w, Leading);
    forall c | c in w.Lead()[o].children
      ensures StandsFor(w, c) == if c in w.LeadMatching().right then Some(w.LeadMatching().right[c]) else None
    {
      assert !Copy(w, c);
      if c in w.LeadMatching().right {
        OwnKey(w, c);
      }
    }
    if r.Base? && Kept(w, o, r) {
      assert StandsFor(w, w.LeadMatching().left[r.id]) == Some(r.id);
    }
  }

  /** The list is what comes of lookups that found l and f: what the first phase lists, in the order of the leading
      side, and every node, once, that only the following side added under the parents that were found. It has
      duplicates if and only if two children stand for one base node. */
  ghost predicate HasContent(w: World, o: Id, l: Option<Id>, f: Option<Id>, list: seq<Ref>)
    requires o in w.Lead()
  {
    var stay := Survivors(w, w.Lead()[o].children);
    Restrict(list, Elems(stay)) == stay && (NoDup(list) <==> TwinFree(w, w.Lead()[o].children)) &&
    forall r :: r in list <==> Stays(w, o, r) || (r.Follow? && NewBelow(w, l, f, r.id))
  }

  lemma MergedChildrenContent(w: World, o: Id, l: Option<Id>, f: Option<Id>)
    requires WellFormed(w) && o in w.Lead()
    ensures HasContent(w, o, l, f, MergedChildren(w, o, l, f))
  {
    var stay := Survivors(w, w.Lead()[o].children);
    forall r ensures r in stay <==> Stays(w, o, r) {
      SurvivorsContent(w, o, r);
    }
    SidesOf(w, Leading);
    ListedTwiceIff(w, w.Lead()[o].children);
    NewFollowersContent(w, l, f);
    InsertFollowersContent(w, stay, NewFollowers(w, l, f));
  }

  /** The added nodes are inserted one after the other, by their IDs. */
  lemma MergedInTurn(w: World, o: Id, l: Option<Id>, f: Option<Id>) returns (ids: seq<Id>)
    requires WellFormed(w) && o in w.Lead()
    ensures Ascending(ids) && forall n :: n in ids <==> NewBelow(w, l, f, n)
    ensures MergedChildren(w, o, l, f) == InsertFollowers(w, Survivors(w, w.Lead()[o].children), ids)
  {
    ids := NewFollowers(w, l, f);
    NewFollowersContent(w, l, f);
  }

  // ---------- what becomes of the nodes the following side added ----------

  lemma FollowerListedIff(w: World, o: Id, l: Option<Id>, f: Option<Id>, n: Id)
    requires WellFormed(w) && o in w.Lead()
    ensures Follow(n) in MergedChildren(w, o, l, f) <==> NewBelow(w, l, f, n)
  {
    MergedChildrenContent(w, o, l, f);
  }

  /** Nodes that the following side added under one matched parent were not added under another. */
  lemma AddedUnderOne(w: World, side: Side, b: Id, x: Id, r: Id)
    requires WellFormed(w) && AddedUnder(w.Rev(side), w.Table(side), b, r)
    requires AddedUnder(w.Rev(side), w.Table(side), x, r)
    ensures b == x
  {
    SidesOf(w, side);
  }

  /** A node that only the following side added under b arrives if and only if b itself was found in the following
      table, and no equal node was added under what was found in the leading table. */
  lemma ArrivesIff(w: World, b: Id, l: Option<Id>, f: Option<Id>, n: Id)
    requires WellFormed(w) && b in w.start && Matched(w, b) && NewBelow(w, Some(b), Some(b), n)
    ensures Follow(n) in MergedChildren(w, w.LeadMatching().left[b], l, f) <==>
      f == Some(b) && !AlsoAddedByLead(w, l, n)
  {
    FollowerListedIff(w, w.LeadMatching().left[b], l, f, n);
    if f.Some? && AddedUnder(w.Follow(), w.FollowMatching(), f.value, n) {
      AddedUnderOne(w, Following, b, f.value, n);
    }
  }

  lemma NewFollowersContent(w: World, l: Option<Id>, found: Option<Id>)
    requires WellFormed(w)
    ensures NoDup(NewFollowers(w, l, found)) && Ascending(NewFollowers(w, l, found))
    ensures forall f :: f in NewFollowers(w, l, found) <==> NewBelow(w, l, found, f)
  {
    var followers := AddedNodes(w.Follow(), w.FollowMatching(), found);
    var leaders := AddedNodes(w.Lead(), w.LeadMatching(), l);
    AddedNodesContent(w.Follow(), w.FollowMatching(), found);
    AddedNodesContent(w.Lead(), w.LeadMatching(), l);
    FreshContent(w.Follow(), followers, w.Lead(), leaders);
    FreshAscending(w.Follow(), followers, w.Lead(), leaders);
    forall f | f in followers ensures SharesSignature(w.Follow(), f, w.Lead(), leaders) <==> AlsoAddedByLead(w, l, f) {
      ShareIff(w.Follow(), f, w.Lead(), leaders);
    }
  }

  lemma ShareIff(rev: Revision, r: Id, other: Revision, others: seq<Id>)
    requires r in rev
    ensures SharesSignature(rev, r, other, others) <==>
      exists l :: l in others && l in other && other[l].sig == rev[r].sig
  {
    if l :| l in others && l in other && other[l].sig == rev[r].sig {
      var k :| 0 <= k < |others| && others[k] == l;
    }
  }
}
