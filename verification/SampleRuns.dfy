/** The two samples as programs: generate the code, put it into an account and run it. */
module SampleRuns {
  import opened Words
  import opened Evm
  import opened State
  import opened Processor
  import opened Samples

  /** Puts a program into an account of a fresh world and runs it for at most `n` turns. */
  method RunProgram(env: Env, sender: Word, to: Word, code: Vector, n: nat)
    returns (ended: bool, result: ExecResult, ghost w: World)
    ensures Lookup(w, to).code == code
    ensures var st := Run(env, Start(sender, to, [], 0, w), n);
            (ended <==> st.Finished?) && (ended ==> result == st.m.result)
  {
    hide Run, Interpreter.View, Interpreter.Objects, Parts;
    var gs := new SimpleGlobalState();
    var tx := new Transaction();
    var contract := gs.Create(to, 0, code);
    var p := new Interpreter(gs, tx, env);
    w := p.WorldView();
    var t := p.Execute(sender, contract, [], 0, n);
    return t.Ended?, p.result, w;
  }

  /** The hello-world sample delivers its string, with a zero byte behind it. */
  method HelloSample(env: Env, sender: Word, to: Word, s: seq<Byte>) returns (ended: bool, result: ExecResult)
    requires |s| <= 254
    ensures ended && result.er == ExitReturned && result.output == s + [0]
  {
    hide Run, HelloCode;
    var code := CreateBytecode(s);
    HelloCodeAt(s, 0);
    ghost var w;
    ended, result, w := RunProgram(env, sender, to, code, 3 * |s| + 3);
    HelloWorld(env, sender, to, [], 0, w, s);
  }

  /** The sum sample delivers its sum. */
  method SumSample(env: Env, sender: Word, to: Word, a: Word, b: Word) returns (ended: bool, result: ExecResult)
    ensures ended && result.er == ExitReturned && result.output == ToBE((a + b) % TWO256, 32)
  {
    hide Run, SumCode, ToBE;
    var code := CreateAPlusBBytecode(a, b);
    SumCodeAt(a, b);
    ghost var w;
    ended, result, w := RunProgram(env, sender, to, code, 8);
    SumOfTwo(env, sender, to, [], 0, w, a, b);
  }
}
