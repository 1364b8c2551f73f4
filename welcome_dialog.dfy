/** The first-visit walkthrough (src/components/onboarding/welcome-dialog.tsx):
    five steps, a "next" that closes after the last one, a "back", a
    "skip", and the stored flag that keeps the dialog from opening again. */
module WelcomeDialog {
  import opened Wrappers

  /** `steps.length`. */
  const StepCount: int := 5

  /** What `handleClose` stores under the "welcome shown" key. */
  const ShownValue: string := "true"

  class Dialog {
    var isOpen: bool
    var currentStep: int
    /** The stored "welcome shown" flag, if any. */
    var shown: Option<string>

    predicate Valid()
      reads this
    {
      0 <= currentStep < StepCount
    }

    /** Mounting: closed at step 0, then opened by the layout effect when
        no flag (or an empty one) is stored. */
    constructor(stored: Option<string>)
      ensures Valid() && currentStep == 0 && shown == stored
      ensures isOpen <==> stored.None? || stored.value == ""
    {
      isOpen := stored.None? || stored.value == "";
      currentStep := 0;
      shown := stored;
    }

    predicate IsLastStep()
      reads this
    {
      currentStep == StepCount - 1
    }

    /** `handleClose`: store the flag and close; the step stays. */
    method HandleClose()
      requires Valid()
      modifies this
      ensures Valid() && !isOpen && shown == Some(ShownValue) && currentStep == old(currentStep)
    {
      shown := Some(ShownValue);
      isOpen := false;
    }

    /** `handleNext`: the next step, or close after the last one. */
    method HandleNext()
      requires Valid()
      modifies this
      ensures Valid()
      ensures old(currentStep) < StepCount - 1 ==>
        currentStep == old(currentStep) + 1 && isOpen == old(isOpen) && shown == old(shown)
      ensures old(currentStep) == StepCount - 1 ==>
        currentStep == old(currentStep) && !isOpen && shown == Some(ShownValue)
    {
      if currentStep < StepCount - 1 {
        currentStep := currentStep + 1;
      } else {
        HandleClose();
      }
    }

    /** `handlePrev`: the step before, none before the first. */
    method HandlePrev()
      requires Valid()
      modifies this
      ensures Valid() && isOpen == old(isOpen) && shown == old(shown)
      ensures currentStep == if old(currentStep) > 0 then old(currentStep) - 1 else 0
    {
      if currentStep > 0 {
        currentStep := currentStep - 1;
      }
    }

    /** `handleSkip`: close from any step. */
    method HandleSkip()
      requires Valid()
      modifies this
      ensures Valid() && !isOpen && shown == Some(ShownValue) && currentStep == old(currentStep)
    {
      HandleClose();
    }

    /** `onOpenChange={setIsOpen}`: the dialog's own close (overlay or
        Escape) hides it without storing the flag. */
    method OnOpenChange(open: bool)
      requires Valid()
      modifies this
      ensures Valid() && isOpen == open && currentStep == old(currentStep) && shown == old(shown)
    {
      isOpen := open;
    }
  }

  /** Four "next" clicks from the first step reach the last step with the
      dialog still open, and a fifth closes it and stores the flag, so a
      dialog mounted afterwards stays closed. */
  method WalkThrough() returns (d: Dialog, again: Dialog)
    ensures !d.isOpen && d.shown == Some(ShownValue) && d.currentStep == StepCount - 1
    ensures !again.isOpen && again.currentStep == 0
  {
    d := new Dialog(None);
    d.HandleNext();
    d.HandleNext();
    d.HandleNext();
    d.HandleNext();
    assert d.isOpen && d.IsLastStep();
    d.HandleNext();
    again := new Dialog(d.shown);
  }
}
