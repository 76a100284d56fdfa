/**
 * The "found an animal" guidance tree: a recursive flow of prompts and named
 * options, the two text macros that write its recommendations, the bundled
 * tree itself, and the structural and path facts that hold of it.
 */
module FoundAnimal {

  import opened Wrappers

  /** One named branch of a flow node; the option owns its child flow. */
  datatype FlowOption = FlowOption(name: string, flow: Flow)

  /**
   * The optional `options` property of a flow node. `Absent` is a property that
   * is left out; `Present([])` would be an explicitly empty list, which the
   * type allows but the bundled tree never uses.
   */
  datatype Options = Absent | Present(list: seq<FlowOption>)

  /** One step of the dialogue: the lines shown together, then the choices. */
  datatype Flow = Flow(prompt: seq<string>, options: Options)

  /** A node without an `options` property ends the dialogue. */
  predicate IsTerminal(f: Flow) {
    f.options.Absent?
  }

  /** `sub` occurs in `s` starting at position `i`. */
  ghost predicate OccursAt(s: string, sub: string, i: int) {
    0 <= i <= |s| - |sub| && s[i..i + |sub|] == sub
  }

  /** `sub` occurs somewhere in `s` as a contiguous run of characters. */
  ghost predicate Contains(s: string, sub: string) {
    exists i :: OccursAt(s, sub, i)
  }

  lemma ContainsMiddle(prefix: string, sub: string, suffix: string)
    ensures Contains(prefix + sub + suffix, sub)
  {
    var s := prefix + sub + suffix;
    assert s[|prefix|..|prefix| + |sub|] == sub;
    assert OccursAt(s, sub, |prefix|);
  }

  lemma PrefixOfConcat(a: string, b: string)
    ensures a <= a + b
  {
    assert (a + b)[..|a|] == a;
  }

  // ---------------------------------------------------------------------------
  // Text macros
  // ---------------------------------------------------------------------------

  /** The sentence every rehabilitator recommendation closes with. */
  const RehabSearchTip: string :=
    "To find a local wildlife rehabilitator, you can try searching online, or contacting your region's wildlife agency, or a local veterinarian."

  /** What every rehabilitator recommendation asks for, after its verb. */
  const RehabilitatorClause: string := " a wildlife rehabilitator."

  /**
   * `macros.general.rehab`: two lines recommending a wildlife rehabilitator.
   * A non-empty `context` (a truthy string) is put in front as a conditional
   * clause and the verb loses its capital letter.
   */
  function Rehab(animal: string := "it", context: string := ""): (lines: seq<string>)
    ensures |lines| == 2
    ensures lines[1] == RehabSearchTip
  {
    var opening := (if context != "" then context + ", call" else "Call") + RehabilitatorClause;
    [opening + RehabHelp(animal), RehabSearchTip]
  }

  /** The rest of the first rehabilitator line, which names the animal. */
  function RehabHelp(animal: string): (text: string)
    ensures Contains(text, animal)
  {
    ContainsMiddle(" They will be able to help ", animal, ", or give you advice on what to do next.");
    " They will be able to help " + animal + ", or give you advice on what to do next."
  }

  /**
   * The first rehabilitator line opens with "Call a wildlife rehabilitator."
   * when there is no context, and with "{context}, call a wildlife
   * rehabilitator." otherwise; it names the animal.
   */
  lemma RehabOpening(animal: string, context: string)
    ensures context == "" ==> "Call" + RehabilitatorClause <= Rehab(animal, context)[0]
    ensures context != "" ==> context + ", call" + RehabilitatorClause <= Rehab(animal, context)[0]
    ensures Contains(Rehab(animal, context)[0], animal)
  {
    var opening := (if context != "" then context + ", call" else "Call") + RehabilitatorClause;
    var help := RehabHelp(animal);
    PrefixOfConcat(opening, help);
    var i :| OccursAt(help, animal, i);
    assert (opening + help)[|opening| + i..|opening| + i + |animal|] == help[i..i + |animal|];
    assert OccursAt(opening + help, animal, |opening| + i);
  }

  const LeaveStart: string := "Leave "
  const LeaveEnd: string := " alone and keep yourself, and any pets, away from it."
  const MonitorStart: string := "If you are still concerned, you can monitor "
  const MonitorEnd: string := " from a distance to make sure it is doing okay over a few days."
  const NoFeedingStart: string := "Do not feed or otherwise interfere with it, to avoid "
  const NoFeedingEnd: string := " becoming dependent on humans."

  /** `macros.general.leave`: three lines advising to leave the animal alone. */
  function Leave(animal: string := "it"): (lines: seq<string>)
    ensures |lines| == 3
    ensures NoFeedingStart <= lines[2]
  {
    PrefixOfConcat(NoFeedingStart, animal + NoFeedingEnd);
    assert NoFeedingStart + animal + NoFeedingEnd == NoFeedingStart + (animal + NoFeedingEnd);
    [ LeaveStart + animal + LeaveEnd,
      MonitorStart + animal + MonitorEnd,
      NoFeedingStart + animal + NoFeedingEnd ]
  }

  /** Every line of `leave` names the animal, and the first opens "Leave {animal}". */
  lemma LeaveMentions(animal: string)
    ensures forall i :: 0 <= i < |Leave(animal)| ==> Contains(Leave(animal)[i], animal)
    ensures LeaveStart + animal <= Leave(animal)[0]
  {
    ContainsMiddle(LeaveStart, animal, LeaveEnd);
    ContainsMiddle(MonitorStart, animal, MonitorEnd);
    ContainsMiddle(NoFeedingStart, animal, NoFeedingEnd);
    PrefixOfConcat(LeaveStart + animal, LeaveEnd);
  }

  /** The second line of a rehabilitator recommendation never depends on the arguments. */
  lemma RehabSecondLineFixed(animal1: string, context1: string, animal2: string, context2: string)
    ensures Rehab(animal1, context1)[1] == Rehab(animal2, context2)[1] == RehabSearchTip
  {
  }

  /**
   * Called with no arguments, both macros speak about "it" and the rehabilitator
   * line has no context clause.
   */
  lemma MacroDefaults()
    ensures Rehab() == Rehab("it", "")
    ensures "Call" + RehabilitatorClause <= Rehab()[0]
    ensures Leave() == Leave("it")
    ensures "Leave it" <= Leave()[0]
  {
    RehabOpening("it", "");
    LeaveMentions("it");
  }

  // ---------------------------------------------------------------------------
  // The bundled tree
  // ---------------------------------------------------------------------------

  function Terminal(prompt: seq<string>): Flow {
    Flow(prompt, Absent)
  }

  function Branch(prompt: seq<string>, options: seq<FlowOption>): Flow {
    Flow(prompt, Present(options))
  }

  function YesNo(yes: Flow, no: Flow): seq<FlowOption> {
    [FlowOption("Yes", yes), FlowOption("No", no)]
  }

  const ParentsAway: string := "If you are sure the parents are not nearby, and do not return within a few hours"
  const DeerWarning: string := "Do not approach or try to handle the deer, as this may scare it and lead to further injury."

  // The tree is one nested literal in the data file; here each branching node
  // is named after the answers that lead to it, and terminal nodes stay inline.

  /** The tree exported by the data file. */
  const Data: Flow :=
    Branch(
      ["What animal have you found in distress?"],
      [ FlowOption("Bird", Bird),
        FlowOption("Deer/Fawn", Deer),
        FlowOption("Cat", Cat),
        FlowOption("Squirrel", Squirrel),
        FlowOption("Raccoon", Raccoon) ])

  const Bird: Flow :=
    Branch(
      [ "Is the bird injured?",
        "For example, does it look like it may have been attacked, is it bleeding, does it appear malnourished, or a wing is drooping?" ],
      YesNo(Terminal(Rehab("an injured bird")), BirdUninjured))

  const BirdUninjured: Flow :=
    Branch(["Does the bird have feathers?"], YesNo(Fledgling, Nestling))

  const Fledgling: Flow :=
    Branch(
      [ "The bird you've found is likely a fledgling.",
        "It is normal for it to be on the ground, it has likely left the nest recently. The parents should still be looking after it and feeding it.",
        "Is the bird safe from pets (dogs, cats, etc.) and people?" ],
      YesNo(Terminal(Leave("the bird")), FledglingMoved))

  const FledglingMoved: Flow :=
    Branch(
      [ "Carefully move the bird to a safe location nearby, such as a bush or tree.",
        "Once moved, leave the bird alone, keeping yourself and any pets away from it, and observe from a distance.",
        "Are the parents still nearby?" ],
      YesNo(Terminal(Leave("the bird")), Terminal(Rehab("the bird", ParentsAway))))

  const Nestling: Flow :=
    Branch(
      [ "The bird you've found is likely a nestling. It shouldn't be on the ground yet!",
        "Can you locate the nest, and is it intact and safe to return the bird to?" ],
      YesNo(
        NestlingReturned,
        Terminal(Rehab(
          "the bird",
          "If you cannot locate a suitable nest, and if you are sure the parents are not nearby, and do not return within a few hours"))))

  const NestlingReturned: Flow :=
    Branch(
      [ "Carefully return the bird to the nest.",
        "Once returned, leave the bird alone, keeping yourself and any pets away from it, and observe from a distance.",
        "Are the parents still nearby? Are they visiting the nest and showing interest in the bird?" ],
      YesNo(Terminal(Leave("the bird")), Terminal(Rehab("the bird", ParentsAway))))

  const Deer: Flow :=
    Branch(
      [ "Is the deer injured?",
        "For example, does it look like it may have been attacked, is it bleeding, is it unable to walk?" ],
      YesNo(Terminal([DeerWarning] + Rehab("an injured deer")), DeerUninjured))

  const DeerUninjured: Flow :=
    Branch(
      [ "Is the deer trapped or stuck?",
        "For example, is it stuck in a fence, or in a hole?" ],
      YesNo(Terminal([DeerWarning] + Rehab("a trapped deer")), DeerFree))

  const DeerFree: Flow :=
    Branch(
      ["Is the deer alone?"],
      YesNo(
        Terminal(
          [ "This is normal, do not worry. Younger deer (fawns) are often left alone for long periods of time. The mother should return to feed them, often toward the end of the day.",
            "If you are still concerned, you can monitor the deer from a distance to make sure the mother is still caring for it. Do not approach or try to handle the deer, as your scent may lead to the mother abandoning it." ]
          + Rehab("a deer", "If you don't see the mother return over the next couple of days")),
        Terminal(Leave("the deer"))))

  const Cat: Flow :=
    Branch(
      [ "Does the cat appear to be sick, injured, in danger, or a nursing kitten with no mama in sight?",
        "For example, is the cat is lying down and will not get up, is limping, or has blood anywhere on their body." ],
      YesNo(Terminal(Rehab("the cat")), CatWell))

  const CatWell: Flow :=
    Branch(
      ["Has the cat been outside for over 24 hours?"],
      YesNo(
        Terminal(
          [ "Check for a collar, if the cat has one try and get in contact with the owner. If the cat has no collar, you can take the cat to the nearest animal shelter to check for a microchip.",
            "If the cat does not have a microchip, leave the cat where it is. You can attempt to locate the owner by asking neighbours, or leaving out flyers with photos and detailed information about the cat." ]
          + Rehab("the cat", "If the cat appears to be feral/unowned")),
        Terminal(Leave("the cat"))))

  const Squirrel: Flow :=
    Branch(
      [ "Does any of the following apply to the squirrel?",
        "- It is bleeding, has an open wound, or has a broken bone.",
        "- It has been in a cat's or dog's mouth.",
        "- It is covered in fly eggs (looks like small grains of rice).",
        "- It is cold, wet, or crying nonstop." ],
      YesNo(Terminal(Rehab("the squirrel")), SquirrelWell))

  const SquirrelWell: Flow :=
    Branch(
      ["Does the squirrel have a fluffed-out tail, a body longer than 6 inches (excluding the tail), or is approaching humans/pets?"],
      YesNo(
        Terminal(["This is likely a juvenile squirrel, you do not need to intervene."] + Leave("the squirrel")),
        SquirrelYoung))

  const SquirrelYoung: Flow :=
    Branch(
      ["Is the squirrel alone?"],
      YesNo(Terminal(Rehab("the squirrel", ParentsAway)), Terminal(Leave("the squirrel"))))

  const Raccoon: Flow :=
    Branch(
      ["Does the raccoon appear to be sick or injured?"],
      YesNo(Terminal(Rehab("the raccoon")), RaccoonWell))

  const RaccoonWell: Flow :=
    Branch(
      ["Have you found a baby raccoon that's alone with no mother in sight?"],
      YesNo(
        Terminal(
          [ "Be careful not to create an orphan raccoon accidentally. When a baby raccoon is separated from its mother, it will stay where it is until the mother returns.",
            "Monitor the baby from a distance to make sure the mother is still caring for it. Do not attempt to feed or otherwise care for the baby, as this may lead to it becoming dependent on humans." ]
          + Rehab("the baby raccoon", "If the mother does return after 24 hours")),
        Terminal(Leave("the raccoon"))))

  // ---------------------------------------------------------------------------
  // Structure
  // ---------------------------------------------------------------------------

  /** The options offered at one node have pairwise distinct names. */
  predicate DistinctNames(opts: seq<FlowOption>) {
    forall i, j :: 0 <= i < j < |opts| ==> opts[i].name != opts[j].name
  }

  /**
   * The shape every node of the bundled tree has: a non-empty prompt, and either
   * no `options` property or a non-empty list of distinctly named options.
   */
  predicate NodeWellFormed(f: Flow) {
    && |f.prompt| > 0
    && match f.options
       case Absent => true
       case Present(opts) => |opts| > 0 && DistinctNames(opts)
  }

  /** The last line of a prompt is the closing line of one of the two macros. */
  predicate EndsWithRecommendation(prompt: seq<string>) {
    && |prompt| > 0
    && (|| prompt[|prompt| - 1] == RehabSearchTip
        || NoFeedingStart <= prompt[|prompt| - 1])
  }

  /** A terminal node closes with a recommendation from one of the macros. */
  predicate LeafRecommends(f: Flow) {
    IsTerminal(f) ==> EndsWithRecommendation(f.prompt)
  }

  /**
   * Every node from `f` down has the well-formed shape, and every terminal node
   * among them ends with a recommendation.
   */
  predicate Sound(f: Flow) {
    && NodeWellFormed(f)
    && LeafRecommends(f)
    && match f.options
       case Absent => true
       case Present(opts) => forall i :: 0 <= i < |opts| ==> Sound(opts[i].flow)
  }

  // ---------------------------------------------------------------------------
  // Following a path of option names
  // ---------------------------------------------------------------------------

  /** The flow of the first option called `name`, if there is one. */
  function Choose(opts: seq<FlowOption>, name: string): (r: Option<Flow>)
    ensures r.None? <==> forall i :: 0 <= i < |opts| ==> opts[i].name != name
    ensures r.Some? ==> exists i :: 0 <= i < |opts| && opts[i].name == name && opts[i].flow == r.value
  {
    if opts == [] then None
    else if opts[0].name == name then Some(opts[0].flow)
    else
      var r := Choose(opts[1..], name);
      assert forall i :: 1 <= i < |opts| ==> opts[i] == opts[1..][i - 1];
      r
  }

  /**
   * The node reached from `f` by choosing the named options in order, or None
   * when some name is not offered (including at a terminal node).
   */
  function Follow(f: Flow, path: seq<string>): Option<Flow>
    decreases path
  {
    if path == [] then Some(f)
    else match f.options
      case Absent => None
      case Present(opts) =>
        match Choose(opts, path[0])
        case None => None
        case Some(next) => Follow(next, path[1..])
  }

  /** Following `p + q` is following `p`, then `q` from where `p` ends. */
  lemma {:induction false} FollowAppend(f: Flow, p: seq<string>, q: seq<string>)
    ensures Follow(f, p + q) == match Follow(f, p) case None => None case Some(g) => Follow(g, q)
    decreases p
  {
    if p == [] {
      assert p + q == q;
    } else {
      assert (p + q)[0] == p[0];
      assert (p + q)[1..] == p[1..] + q;
      match f.options
      case Absent =>
      case Present(opts) =>
        match Choose(opts, p[0])
        case None =>
        case Some(next) => FollowAppend(next, p[1..], q);
    }
  }

  /** One step of a path: choosing `name` at `f` leads to `child`. */
  lemma FollowStep(f: Flow, name: string, rest: seq<string>, child: Flow)
    requires f.options.Present? && Choose(f.options.list, name) == Some(child)
    ensures Follow(f, [name] + rest) == Follow(child, rest)
  {
    assert ([name] + rest)[1..] == rest;
  }

  /** Every node reached from a sound node is sound. */
  lemma {:induction false} FollowKeepsSound(f: Flow, path: seq<string>)
    requires Sound(f)
    ensures Follow(f, path).Some? ==> Sound(Follow(f, path).value)
    decreases path
  {
    if path != [] {
      match f.options
      case Absent =>
      case Present(opts) =>
        match Choose(opts, path[0])
        case None =>
        case Some(next) => FollowKeepsSound(next, path[1..]);
    }
  }

  // ---------------------------------------------------------------------------
  // Facts about the bundled tree
  // ---------------------------------------------------------------------------

  // Soundness of the bundled tree, proved node by node from the leaves up.

  lemma FledglingMovedSound()
    ensures Sound(FledglingMoved)
  {
  }

  lemma FledglingSound()
    ensures Sound(Fledgling)
  {
    FledglingMovedSound();
  }

  lemma NestlingReturnedSound()
    ensures Sound(NestlingReturned)
  {
  }

  lemma NestlingSound()
    ensures Sound(Nestling)
  {
    NestlingReturnedSound();
  }

  lemma BirdUninjuredSound()
    ensures Sound(BirdUninjured)
  {
    FledglingSound();
    NestlingSound();
  }

  lemma BirdSound()
    ensures Sound(Bird)
  {
    BirdUninjuredSound();
  }

  lemma DeerFreeSound()
    ensures Sound(DeerFree)
  {
  }

  lemma DeerUninjuredSound()
    ensures Sound(DeerUninjured)
  {
    DeerFreeSound();
  }

  lemma DeerSound()
    ensures Sound(Deer)
  {
    DeerUninjuredSound();
  }

  lemma CatWellSound()
    ensures Sound(CatWell)
  {
  }

  lemma CatSound()
    ensures Sound(Cat)
  {
    CatWellSound();
  }

  lemma SquirrelYoungSound()
    ensures Sound(SquirrelYoung)
  {
  }

  lemma SquirrelWellSound()
    ensures Sound(SquirrelWell)
  {
    SquirrelYoungSound();
  }

  lemma SquirrelSound()
    ensures Sound(Squirrel)
  {
    SquirrelWellSound();
  }

  lemma RaccoonWellSound()
    ensures Sound(RaccoonWell)
  {
  }

  lemma RaccoonSound()
    ensures Sound(Raccoon)
  {
    RaccoonWellSound();
  }

  /** Every node of the bundled tree is sound. */
  lemma DataSound()
    ensures Sound(Data)
  {
    BirdSound();
    DeerSound();
    CatSound();
    SquirrelSound();
    RaccoonSound();
  }

  /**
   * Whatever names are chosen, a node that is reached shows a non-empty prompt,
   * offers either nothing or a non-empty list of distinct names, and, when it is
   * terminal, ends with a recommendation.
   */
  lemma ReachedNodesWellFormed(path: seq<string>)
    ensures Follow(Data, path).Some? ==>
              && NodeWellFormed(Follow(Data, path).value)
              && LeafRecommends(Follow(Data, path).value)
  {
    DataSound();
    FollowKeepsSound(Data, path);
  }

  /** The first question asks which animal was found. */
  lemma RootQuestion()
    ensures Data.prompt == ["What animal have you found in distress?"]
  {
  }

  /** "Bird" leads to the question whether the bird is injured. */
  lemma BirdQuestion()
    ensures Follow(Data, ["Bird"]).Some?
    ensures Follow(Data, ["Bird"]).value.prompt[0] == "Is the bird injured?"
  {
  }

  /** Bird, then Yes: a terminal node that is exactly the injured-bird rehabilitator advice. */
  lemma InjuredBird()
    ensures Follow(Data, ["Bird", "Yes"]) == Some(Flow(Rehab("an injured bird"), Absent))
  {
  }

  /** A fledgling that is safe from pets is to be left alone. */
  lemma FledglingSafe()
    ensures Follow(Fledgling, ["Yes"]) == Some(Terminal(Leave("the bird")))
  {
  }

  /**
   * Bird, No, Yes, Yes: a fledgling safe from pets reaches a terminal node whose
   * prompt is `leave("the bird")`, so its first line is "Leave the bird alone …".
   */
  lemma SafeFledgling()
    ensures Follow(Data, ["Bird", "No", "Yes", "Yes"]) == Some(Terminal(Leave("the bird")))
  {
    FledglingSafe();
    FollowStep(BirdUninjured, "Yes", ["Yes"], Fledgling);
    FollowStep(Bird, "No", ["Yes", "Yes"], BirdUninjured);
    FollowStep(Data, "Bird", ["No", "Yes", "Yes"], Bird);
  }

  /** The first line `leave("the bird")` writes. */
  lemma LeaveTheBird()
    ensures Leave("the bird")[0] == LeaveStart + "the bird" + LeaveEnd
    ensures LeaveStart + "the bird" <= Leave("the bird")[0]
  {
  }

  /** A name the root does not offer leads nowhere. */
  lemma UnknownAnimal(name: string)
    requires name != "Bird" && name != "Deer/Fawn" && name != "Cat" && name != "Squirrel" && name != "Raccoon"
    ensures Follow(Data, [name]).None?
  {
  }
}
