// The build target that the ninja log reader creates and the sweep annotates.
module NinjaTarget {

  /** One command of a ninja log: when it ran, what it built, and the weighted duration the sweep gives it. */
  class Target {
    const start: real
    const end: real
    var targets: seq<string>
    var weightedDuration: real

    constructor (start: real, end: real)
      ensures this.start == start && this.end == end
      ensures targets == [] && weightedDuration == 0.0
    {
      this.start, this.end := start, end;
      targets, weightedDuration := [], 0.0;
    }

    function Duration(): real {
      end - start
    }
  }
}
