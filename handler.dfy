// The one piece of logic in the HTTP handlers: the normalisation of a
// requested priority before a job is created.

module Handler {

  /** The least and greatest accepted priorities, and the value that replaces a
      priority outside that range. */
  const MinPriority: int := 1
  const MaxPriority: int := 5
  const DefaultPriority: int := 3

  /** Normalises a requested priority: a value in [1,5] is kept, anything else
      becomes the default 3. */
  function ClampPriority(requested: int): (p: int)
    ensures MinPriority <= p <= MaxPriority
    ensures MinPriority <= requested <= MaxPriority ==> p == requested
    ensures requested < MinPriority ==> p == DefaultPriority
    ensures requested > MaxPriority ==> p == DefaultPriority
  {
    if requested < MinPriority || requested > MaxPriority then DefaultPriority else requested
  }
}
