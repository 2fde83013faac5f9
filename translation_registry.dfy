/** The translation registry as the program keeps it: one mutable slot that
    the registration calls overwrite and the translator reads when called.
    A ghost history records every write, so that the properties proved in
    TranslationSpec about histories apply to the live registry. */
module TranslationRegistry {
  import opened TranslationSpec

  class Registry {
    /** The registered translation function; `None` stands for `null`. */
    var customTranslateFn: Slot
    /** Every registration and reset performed so far, oldest first. */
    ghost var history: seq<Write>

    /** The slot is the one the recorded writes lead to from the initial state. */
    ghost predicate Valid()
      reads this
    {
      customTranslateFn == Replay(Initial, history)
    }

    /** The registry as loaded: no function registered, no writes yet. */
    constructor ()
      ensures Valid()
      ensures customTranslateFn == Initial && history == []
    {
      customTranslateFn := None;
      history := [];
    }

    /** Translates `key` with the registered function, or returns it as-is
        when none is registered. The answer is the one the writes performed
        so far decide. */
    function Translate(key: string): (text: string)
      requires Valid()
      reads this
      ensures text == TranslationSpec.Translate(InForce(Initial, history), key)
    {
      ReplayIsInForce(Initial, history);
      TranslationSpec.Translate(customTranslateFn, key)
    }

    /** Hands out the translator. It is always the same function, and it does
        not capture the slot: it reads the registry each time it is applied. */
    function GetT(): (t: string ~> string)
      ensures t == Translate
    {
      Translate
    }

    /** Registers `fn`, replacing whatever was registered before. */
    method SetTranslationFunction(fn: TranslationFunction)
      requires Valid()
      modifies this
      ensures Valid()
      ensures history == old(history) + [Register(fn)]
      ensures customTranslateFn == Some(fn)
      ensures forall key :: Translate(key) == fn(key)
    {
      ReplaySnoc(Initial, history, Register(fn));
      customTranslateFn := Some(fn);
      history := history + [Register(fn)];
    }

    /** Empties the slot, so that translation is the identity again. */
    method ResetTranslationRegistry()
      requires Valid()
      modifies this
      ensures Valid()
      ensures history == old(history) + [Reset]
      ensures customTranslateFn == Initial
      ensures forall key :: Translate(key) == key
    {
      ReplaySnoc(Initial, history, Reset);
      customTranslateFn := None;
      history := history + [Reset];
    }
  }

  /** A translator obtained before a registration, applied after it, uses
      the newly registered function: it resolves keys when called. */
  method TranslateAfterLaterRegistration(reg: Registry, fn: TranslationFunction, key: string)
    returns (text: string)
    requires reg.Valid()
    modifies reg
    ensures reg.Valid() && reg.history == old(reg.history) + [Register(fn)]
    ensures text == fn(key)
  {
    var t := reg.GetT();
    reg.SetTranslationFunction(fn);
    text := t(key);
  }

  /** A translator obtained before a reset, applied after it, hands keys
      back unchanged, whatever was registered when it was obtained. */
  method TranslateAfterLaterReset(reg: Registry, key: string)
    returns (text: string)
    requires reg.Valid()
    modifies reg
    ensures reg.Valid() && reg.history == old(reg.history) + [Reset]
    ensures text == key
  {
    var t := reg.GetT();
    reg.ResetTranslationRegistry();
    text := t(key);
  }

  /** A translator obtained before any run of registrations and resets,
      applied after it, translates as the latest write of the run decides
      (or as the registration in force when it was obtained, if the run is
      empty): it reads the registry when called, not when obtained. */
  method TranslateAfterLaterWrites(reg: Registry, writes: seq<Write>, key: string)
    returns (text: string)
    requires reg.Valid()
    modifies reg
    ensures reg.Valid() && reg.history == old(reg.history) + writes
    ensures text == TranslationSpec.Translate(InForce(old(reg.customTranslateFn), writes), key)
  {
    var t := reg.GetT();
    var i := 0;
    while i < |writes|
      invariant 0 <= i <= |writes|
      invariant reg.Valid()
      invariant reg.history == old(reg.history) + writes[..i]
    {
      match writes[i] {
        case Register(fn) => reg.SetTranslationFunction(fn);
        case Reset => reg.ResetTranslationRegistry();
      }
      i := i + 1;
    }
    text := t(key);
  }
}
