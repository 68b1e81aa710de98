// The exception taxonomy of the engine (PYGA_Exceptions), the Python
// built-in exceptions that the modelled code can raise, and the small
// wrapper types used to return them instead of raising.

module Errors {

  datatype Error =
    | CreationError(msg: string)
    | ParametersError(msg: string)
    | MethodMustBeOverloaded(methodName: string)
    | PopulationError(msg: string)
    | BehaviorAddMethodError(msg: string)
    | FitnessComputation(msg: string)
      // Python built-in exceptions raised by the modelled code itself
    | Exception(msg: string)
    | ZeroDivisionError
    | IndexError
    | KeyError(key: string)
    | ValueError
    | NameError(name: string)
    | AttributeError(name: string)
    | TypeError
    | RuntimeError(msg: string)

  datatype Option<T> = None | Some(value: T)

  datatype Result<T> = Ok(value: T) | Err(error: Error)

  /** The outcome of an operation that returns nothing but may raise. */
  datatype Status = Success | Failure(error: Error)

  /** The text `str(e)` gives for the one exception class that overrides `__str__`;
      the others print the message they were raised with. */
  function Message(e: Error): (s: string)
    ensures e.MethodMustBeOverloaded? ==>
              s == "ERROR: This method (" + e.methodName + ") must be defined in derived class."
  {
    match e
    case CreationError(m) => m
    case ParametersError(m) => m
    case MethodMustBeOverloaded(name) =>
      "ERROR: This method (" + name + ") must be defined in derived class."
    case PopulationError(m) => m
    case BehaviorAddMethodError(m) => m
    case FitnessComputation(m) => m
    case Exception(m) => m
    case ZeroDivisionError => "integer division or modulo by zero"
    case IndexError => "list index out of range"
    case KeyError(k) => "'" + k + "'"
    case ValueError => "sample larger than population"
    case NameError(n) => "local variable '" + n + "' referenced before assignment"
    case AttributeError(n) => "object has no attribute '" + n + "'"
    case TypeError => "unsupported operand type(s)"
    case RuntimeError(m) => m
  }

  /** The name an overloaded-method error carries can be read back from its message. */
  lemma {:induction false} OverloadedMessageNamesMethod(a: string, b: string)
    ensures Message(MethodMustBeOverloaded(a)) == Message(MethodMustBeOverloaded(b)) <==> a == b
  {
    var pre := "ERROR: This method (";
    var post := ") must be defined in derived class.";
    if Message(MethodMustBeOverloaded(a)) == Message(MethodMustBeOverloaded(b)) {
      var ma := pre + a + post;
      var mb := pre + b + post;
      assert |a| == |b| by { assert |ma| == |mb|; }
      forall k | 0 <= k < |a| ensures a[k] == b[k] {
        assert ma[|pre| + k] == a[k];
        assert mb[|pre| + k] == b[k];
      }
    }
  }

  /** The error a base class raises for an operation `name` its derived
      classes must define: the method is named `<owner>.<name>`. */
  function BaseOperationError(owner: string, name: string): (e: Error)
    ensures e.MethodMustBeOverloaded?
    ensures Message(e) == "ERROR: This method (" + owner + "." + name + ") must be defined in derived class."
  {
    MethodMustBeOverloaded(owner + "." + name)
  }

  /** Errors raised for operations of one owner tell the operations apart. */
  lemma BaseOperationErrorNamesIt(owner: string, a: string, b: string)
    ensures Message(BaseOperationError(owner, a)) == Message(BaseOperationError(owner, b)) <==> a == b
  {
    OverloadedMessageNamesMethod(owner + "." + a, owner + "." + b);
    if owner + "." + a == owner + "." + b {
      assert a == (owner + "." + a)[|owner| + 1..];
      assert b == (owner + "." + b)[|owner| + 1..];
    }
  }
}
