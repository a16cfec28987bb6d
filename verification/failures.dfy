/**
 * What a request-model validation failure carries: where in the request
 * body it is, and which rule was broken.
 */
module Failures {

  /** One step of an error location: a field name, or a position in a list. */
  datatype LocSegment = Key(name: string) | Index(position: nat)

  /** The rule a field broke. */
  datatype Violation =
    | TooShort(minLength: nat)        // a `min_length` on a string field
    | TooLong(maxLength: nat)         // a `max_length` on a string field
    | TooFewItems(minItems: nat)      // a `min_items` on a list field
    | TooManyItems(maxItems: nat)     // a `max_items` on a list field
    | NotAbove(lowerBound: real)      // a `gt` bound on a number field
    | NotAtLeast(lowerBound: real)    // a `ge` bound on a number field
    | NotAtMost(upperBound: real)     // a `le` bound on a number field
    | InvalidEmail                    // the e-mail syntax check of `EmailStr`
    | ValueError(message: string)     // a validator raised `ValueError(message)`

  datatype FieldFailure = FieldFailure(loc: seq<LocSegment>, violation: Violation)

  /** Locate every failure under `seg`. */
  function Under(seg: LocSegment, fs: seq<FieldFailure>): (r: seq<FieldFailure>)
    ensures |r| == |fs|
    ensures forall f :: f in r ==> f.loc != [] && f.loc[0] == seg
  {
    if fs == [] then [] else [FieldFailure([seg] + fs[0].loc, fs[0].violation)] + Under(seg, fs[1..])
  }

  /** The failures of each block in turn, as pydantic collects the failures of a list's elements. */
  function Flatten(blocks: seq<seq<FieldFailure>>): seq<FieldFailure>
  {
    if blocks == [] then [] else blocks[0] + Flatten(blocks[1..])
  }

  /** A failure of the flattened list comes from one of the blocks ... */
  lemma {:induction false} FlattenMember(blocks: seq<seq<FieldFailure>>, f: FieldFailure)
    requires f in Flatten(blocks)
    ensures exists i :: 0 <= i < |blocks| && f in blocks[i]
  {
    if f !in blocks[0] {
      FlattenMember(blocks[1..], f);
      var i :| 0 <= i < |blocks[1..]| && f in blocks[1..][i];
      assert f in blocks[i + 1];
    }
  }

  /** ... and every failure of every block is kept. */
  lemma {:induction false} MemberFlatten(blocks: seq<seq<FieldFailure>>, i: nat, f: FieldFailure)
    requires i < |blocks| && f in blocks[i]
    ensures f in Flatten(blocks)
  {
    if i > 0 {
      MemberFlatten(blocks[1..], i - 1, f);
    }
  }

  /** The flattened list is empty exactly when every block is. */
  lemma FlattenEmpty(blocks: seq<seq<FieldFailure>>)
    ensures Flatten(blocks) == [] <==> forall i :: 0 <= i < |blocks| ==> blocks[i] == []
  {
    if Flatten(blocks) != [] {
      FlattenMember(blocks, Flatten(blocks)[0]);
    } else {
      forall i | 0 <= i < |blocks| ensures blocks[i] == [] {
        if blocks[i] != [] {
          MemberFlatten(blocks, i, blocks[i][0]);
        }
      }
    }
  }

  /** Some failure in `fs` is located at `loc`. */
  predicate Flags(fs: seq<FieldFailure>, loc: seq<LocSegment>) {
    exists f :: f in fs && f.loc == loc
  }

  /** Under `seg`, a failure sits at `[seg] + loc` exactly when one sat at `loc` before. */
  lemma {:induction false} UnderFlags(seg: LocSegment, fs: seq<FieldFailure>, loc: seq<LocSegment>)
    ensures Flags(Under(seg, fs), [seg] + loc) <==> Flags(fs, loc)
  {
    if fs != [] {
      UnderFlags(seg, fs[1..], loc);
      var head := FieldFailure([seg] + fs[0].loc, fs[0].violation);
      assert Under(seg, fs) == [head] + Under(seg, fs[1..]);
      assert head.loc == [seg] + loc <==> fs[0].loc == loc by {
        if head.loc == [seg] + loc {
          assert head.loc[1..] == fs[0].loc && ([seg] + loc)[1..] == loc;
        }
      }
      if Flags(fs, loc) {
        var f :| f in fs && f.loc == loc;
        if f != fs[0] {
          assert f in fs[1..];
        }
      }
      if Flags(fs[1..], loc) {
        var f :| f in fs[1..] && f.loc == loc;
        assert f in fs;
      }
    }
  }

  /** A location is flagged in the flattened blocks exactly when some block flags it. */
  lemma FlattenFlags(blocks: seq<seq<FieldFailure>>, loc: seq<LocSegment>)
    ensures Flags(Flatten(blocks), loc) <==> exists i :: 0 <= i < |blocks| && Flags(blocks[i], loc)
  {
    if Flags(Flatten(blocks), loc) {
      var f :| f in Flatten(blocks) && f.loc == loc;
      FlattenMember(blocks, f);
    }
    if exists i :: 0 <= i < |blocks| && Flags(blocks[i], loc) {
      var i :| 0 <= i < |blocks| && Flags(blocks[i], loc);
      var f :| f in blocks[i] && f.loc == loc;
      MemberFlatten(blocks, i, f);
    }
  }

  /** When block `k` holds the failures at `loc` and no other block does, `loc` is flagged exactly when block `k` is non-empty. */
  lemma FieldFlagged(blocks: seq<seq<FieldFailure>>, k: nat, loc: seq<LocSegment>)
    requires k < |blocks|
    requires forall f :: f in blocks[k] ==> f.loc == loc
    requires forall i :: 0 <= i < |blocks| && i != k ==> !Flags(blocks[i], loc)
    ensures Flags(Flatten(blocks), loc) <==> blocks[k] != []
  {
    if Flags(Flatten(blocks), loc) {
      var f :| f in Flatten(blocks) && f.loc == loc;
      FlattenMember(blocks, f);
      var i :| 0 <= i < |blocks| && f in blocks[i];
      assert Flags(blocks[i], loc);
    }
    if blocks[k] != [] {
      MemberFlatten(blocks, k, blocks[k][0]);
    }
  }

  /** Block `i` holds only failures located at `locs[i]`. */
  predicate BlocksAt(blocks: seq<seq<FieldFailure>>, locs: seq<seq<LocSegment>>) {
    |blocks| == |locs| && forall i :: 0 <= i < |blocks| ==> forall f :: f in blocks[i] ==> f.loc == locs[i]
  }

  predicate DistinctLocs(locs: seq<seq<LocSegment>>) {
    forall i, j :: 0 <= i < j < |locs| ==> locs[i] != locs[j]
  }

  /** With one block per location, a location is flagged exactly when its own block is non-empty. */
  lemma FlaggedAt(blocks: seq<seq<FieldFailure>>, locs: seq<seq<LocSegment>>, k: nat)
    requires BlocksAt(blocks, locs) && DistinctLocs(locs) && k < |blocks|
    ensures Flags(Flatten(blocks), locs[k]) <==> blocks[k] != []
  {
    forall i | 0 <= i < |blocks| && i != k ensures !Flags(blocks[i], locs[k]) {
      if Flags(blocks[i], locs[k]) {
        assert false;
      }
    }
    FieldFlagged(blocks, k, locs[k]);
  }

  /** Every failure of the flattened blocks is at one of the blocks' locations. */
  lemma FlattenAt(blocks: seq<seq<FieldFailure>>, locs: seq<seq<LocSegment>>)
    requires BlocksAt(blocks, locs)
    ensures forall f :: f in Flatten(blocks) ==> f.loc in locs
  {
    forall f | f in Flatten(blocks) ensures f.loc in locs {
      FlattenMember(blocks, f);
    }
  }

  /** Five blocks flatten to nothing exactly when each is empty. */
  lemma FiveBlocksEmpty(blocks: seq<seq<FieldFailure>>)
    requires |blocks| == 5
    ensures Flatten(blocks) == [] <==>
      blocks[0] == [] && blocks[1] == [] && blocks[2] == [] && blocks[3] == [] && blocks[4] == []
  {
    FlattenEmpty(blocks);
  }
}
