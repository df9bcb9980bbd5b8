/** TypeScript's optional properties: a value of type `T` or `undefined`. */
module Optional {

  datatype Maybe<T> = Undefined | Defined(value: T) {

    /** The defined value, or `fallback` when it is `undefined`. */
    function Otherwise(fallback: T): (r: T)
      ensures Defined? ==> r == value
      ensures Undefined? ==> r == fallback
    {
      if Defined? then value else fallback
    }
  }
}
