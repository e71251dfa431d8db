/**
 Shared vocabulary of the model: the failure-carrying result type, the
 exceptions the Python code can raise on the paths that are modelled, and the
 exact-arithmetic stand-in for a one-dimensional tensor.
 */
module Types {

  /** A one-dimensional tensor; bf16 rounding is not modelled, values are exact reals. */
  type Vector = seq<real>

  /** Which of the two low-rank factors a layout key belongs to. */
  datatype Slot = A | B

  /** The exceptions raised on the modelled paths of lora_VAEw2w.py. */
  datatype Error =
    | NotImplemented(trainMethod: string)   // NotImplementedError from the skip policy
    | MissingSlot(base: string, slot: Slot)  // TypeError: unpacking a None slot
    | NoSuchModule(path: string)       // AttributeError from the getattr walk
    | ZeroDivision                     // ZeroDivisionError in alpha / rank
    | AlreadyInstalled                 // AttributeError: org_module was deleted
    | NotCallable                      // TypeError: org_forward is still None
    | ShapeMismatch                    // matmul or addition on mismatched lengths

  datatype Option<+T> = None | Some(value: T)

  datatype Result<+T> = Ok(value: T) | Err(error: Error)

  /** The outcome of an action that returns nothing but may raise. */
  datatype Outcome = Pass | Fail(error: Error)
}
