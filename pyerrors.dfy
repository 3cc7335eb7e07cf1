/**
  The Python exception classes that the indexing core raises, catches or lists
  as "expected" in its tokenizer plugins, with the part of Python's class
  hierarchy that `isinstance` checks depend on.
*/
module PyErrors {

  datatype ExcType =
    | Exception           // the root of every class below
    | ValueError
    | UnicodeDecodeError  // subclass of UnicodeError, itself a subclass of ValueError
    | SyntaxError
    | IndentationError    // subclass of SyntaxError
    | TokenError          // tokenize.TokenError, a direct subclass of Exception
    | ECMASyntaxError     // calmjs.parse.exceptions.ECMASyntaxError
    | NoLexerFound        // raised by the pygments plugin
    | KeyError
    | InvalidDocument     // subclass of KeyError, raised by remove_document
    | AssertionError
    | TypeError
    | IndexerError
    | NotAnalyzable       // raised by the analyzer of the memory backend (its base class is not part of this model)
    | OSError

  /** The direct base class of `e`; `Exception` is its own root. */
  function Base(e: ExcType): ExcType
  {
    match e
    case UnicodeDecodeError => ValueError
    case IndentationError => SyntaxError
    case InvalidDocument => KeyError
    case _ => Exception
  }

  /** `isinstance(instance_of_e, cls)`: `cls` is `e` or one of its ancestors. */
  predicate IsInstance(e: ExcType, cls: ExcType)
  {
    e == cls || Base(e) == cls || Base(Base(e)) == cls
  }

  /**
    The `for exc in self.exceptions ... else: raise` loop of
    `TokenizerPlugin.tokenize`: an exception is swallowed exactly when it is an
    instance of one of the listed classes.
  */
  predicate Swallowed(e: ExcType, listed: set<ExcType>)
  {
    exists cls :: cls in listed && IsInstance(e, cls)
  }

  lemma SwallowedIff(e: ExcType, listed: set<ExcType>)
    ensures Swallowed(e, listed) <==>
      (e in listed || Base(e) in listed || Base(Base(e)) in listed)
  {
    if e in listed {
      assert IsInstance(e, e);
    } else if Base(e) in listed {
      assert IsInstance(e, Base(e));
    } else if Base(Base(e)) in listed {
      assert IsInstance(e, Base(Base(e)));
    }
  }

  /** Every class is an instance of Exception, so `except Exception` catches all of them. */
  lemma EveryErrorIsException(e: ExcType)
    ensures IsInstance(e, Exception)
  {
  }
}
