/** The viewer's module-level session state (src/main.js): the loaded model
    root, the measuring state, the rotate gizmo's enabled, visible and
    attached flags, and the pointer bookkeeping that tells a click from a
    camera drag. Rendering, the DOM and the raycaster are outside: a ray hit
    and whether it met a mesh are given to the pointer handlers. */
module Viewer {
  import opened Options
  import opened Vectors
  import opened Snap
  import opened Placement
  import opened Measurements

  /** clientX and clientY of a pointer event. */
  datatype ScreenPoint = ScreenPoint(x: real, y: real)

  /** `Math.hypot(dx, dy) > 12`, compared squared. */
  predicate MovedTooFar(down: ScreenPoint, up: ScreenPoint)
  {
    Sq(up.x - down.x) + Sq(up.y - down.y) > 144.0
  }

  /** pickModelTarget's point: the hit snapped to the triangle's corners and
      edges when snapping is on (one of the six candidates, the nearest by
      SnappedPointIsNearestCandidate), the raw hit point otherwise. */
  function TargetPoint(hit: Hit, snap: bool): (p: Vec3)
    ensures !snap ==> p == hit.point
    ensures snap && hit.face.None? ==> p == hit.point
    ensures snap ==> p == SnappedPoint(hit)
    ensures snap && hit.face.Some? ==> p in Snap.Candidates(hit.point, hit.face.value)
  {
    if snap && hit.face.Some? then
      SnappedPointIsNearestCandidate(hit);
      SnappedPoint(hit)
    else if snap then SnappedPoint(hit)
    else hit.point
  }

  /** transformControls.enabled, transformHelper.visible and whether the
      controls are attached to the model root. */
  datatype GizmoState = GizmoState(enabled: bool, helperVisible: bool, attached: bool)

  const GizmoOff := GizmoState(false, false, false)

  /** controls.enabled, transformControls.dragging, pointerDownPos and
      gizmoPointerInteraction. */
  datatype PointerState = PointerState(orbitEnabled: bool, dragging: bool, pointerDown: Option<ScreenPoint>,
                                       gizmoPointerInteraction: bool)

  class Session {
    var model: SceneNode?
    var measureMode: bool
    var pending: Option<Vec3>
    var measurementId: nat
    var measurements: seq<Measurement>
    var groupChildren: seq<Artifact>
    var listView: ListView
    var gizmoEnabled: bool
    var helperVisible: bool
    var attached: bool
    var orbitEnabled: bool
    var dragging: bool
    var pointerDown: Option<ScreenPoint>
    var gizmoPointerInteraction: bool

    /** The measuring state as one value. */
    function Measures(): MeasureState
      reads this`pending, this`measurementId, this`measurements, this`groupChildren
    {
      MeasureState(pending, measurementId, measurements, groupChildren)
    }

    function Gizmo(): GizmoState
      reads this`gizmoEnabled, this`helperVisible, this`attached
    {
      GizmoState(gizmoEnabled, helperVisible, attached)
    }

    /** The pointer and orbit bookkeeping. */
    function Pointer(): PointerState
      reads this`orbitEnabled, this`dragging, this`pointerDown, this`gizmoPointerInteraction
    {
      PointerState(orbitEnabled, dragging, pointerDown, gizmoPointerInteraction)
    }

    /** The measuring state is consistent and the list shows it. */
    predicate MeasuresListed()
      reads this`pending, this`measurementId, this`measurements, this`groupChildren, this`listView
    {
      Consistent(Measures()) && listView == ListOf(Measures())
    }

    /** The measuring state is consistent and listed, a point is only
        pending while measuring, the gizmo is off while measuring, the
        helper is shown exactly when the controls are enabled, they are only
        attached to a loaded model, and a loaded model has vertices. */
    predicate Valid()
      reads this, model
    {
      MeasuresListed() &&
      (pending.Some? ==> measureMode) && (measureMode ==> !gizmoEnabled && !attached) &&
      helperVisible == gizmoEnabled && (attached ==> gizmoEnabled && model != null) &&
      (model != null ==> |model.local| > 0)
    }

    /** The state at start-up: no model, nothing measured, the gizmo off. */
    constructor ()
      ensures Valid() && model == null && !measureMode && Measures() == Cleared() && Gizmo() == GizmoOff
      ensures orbitEnabled && !dragging && pointerDown.None? && !gizmoPointerInteraction
    {
      model := null;
      measureMode := false;
      pending := None;
      measurementId := 1;
      measurements := [];
      groupChildren := [];
      listView := NoMeasurements;
      gizmoEnabled := false;
      helperVisible := false;
      attached := false;
      orbitEnabled := true;
      dragging := false;
      pointerDown := None;
      gizmoPointerInteraction := false;
    }

    /** updateMeasurementsList. */
    method UpdateMeasurementsList()
      modifies this
      ensures listView == ListOf(Measures())
      ensures Measures() == old(Measures()) && Gizmo() == old(Gizmo()) && model == old(model)
      ensures measureMode == old(measureMode) && Pointer() == old(Pointer())
    {
      listView := ListOf(Measures());
    }

    /** addMeasurementPoint (AddPoint, AddPointKeepsConsistent); only the
        pointerup listener calls it, and only while measuring. */
    method AddMeasurementPoint(p: Vec3)
      requires Valid() && measureMode
      modifies this
      ensures Valid()
      ensures Measures() == AddPoint(old(Measures()), p)
      ensures Gizmo() == old(Gizmo()) && model == old(model) && measureMode == old(measureMode)
      ensures Pointer() == old(Pointer())
    {
      AddPointKeepsConsistent(Measures(), p);
      if pending.None? {
        groupChildren := groupChildren + [StartMarker(p)];
        pending := Some(p);
      } else {
        var q := pending.value;
        groupChildren := groupChildren + [EndMarker(p), Segment(q, p)];
        var d := DistSq(q, p);
        var id := measurementId;
        measurementId := measurementId + 1;
        groupChildren := groupChildren + [Label(id, d)];
        measurements := measurements + [Measurement(id, d)];
        pending := None;
      }
      assert Measures() == AddPoint(old(Measures()), p);
      UpdateMeasurementsList();
    }

    /** clearMeasurements. */
    method ClearMeasurements()
      requires Valid()
      modifies this
      ensures Valid()
      ensures Measures() == Cleared()
      ensures Gizmo() == old(Gizmo()) && model == old(model) && measureMode == old(measureMode)
      ensures Pointer() == old(Pointer())
    {
      groupChildren := [];
      measurements := [];
      pending := None;
      measurementId := 1;
      listView := NoMeasurements;
    }

    /** setRotateGizmoVisible: enables and shows the controls, attached to
        the model when there is one, or detaches and hides them. */
    method SetRotateGizmoVisible(enabled: bool)
      requires Valid() && (enabled ==> !measureMode)
      modifies this
      ensures Valid()
      ensures Gizmo() == GizmoState(enabled, enabled, enabled && model != null)
      ensures Measures() == old(Measures()) && model == old(model) && measureMode == old(measureMode)
      ensures Pointer() == old(Pointer())
    {
      gizmoEnabled := enabled;
      helperVisible := enabled;
      attached := enabled && model != null;
    }

    /** setMeasureMode: entering turns the gizmo off; leaving cancels the
        pending point and its marker (CancelPending,
        CancelPendingRemovesOnlyTheMarker). */
    method SetMeasureMode(enabled: bool)
      requires Valid()
      modifies this
      ensures Valid()
      ensures measureMode == enabled
      ensures enabled ==> Measures() == old(Measures()) && Gizmo() == GizmoOff
      ensures !enabled ==> Measures() == CancelPending(old(Measures())) && Gizmo() == old(Gizmo())
      ensures model == old(model) && Pointer() == old(Pointer())
    {
      CancelPendingRemovesOnlyTheMarker(Measures());
      if enabled {
        // setRotateGizmoVisible does not read the mode, so turning the
        // gizmo off before the mode is set changes nothing.
        SetRotateGizmoVisible(false);
        measureMode := true;
      } else {
        measureMode := false;
        if pending.Some? {
          groupChildren := groupChildren[..|groupChildren| - 1];
          pending := None;
        }
      }
      UpdateMeasurementsList();
    }

    /** clearModel: the gizmo is detached and off, measurements are
        cleared and the model is gone. */
    method ClearModel()
      requires Valid()
      modifies this
      ensures Valid()
      ensures model == null && Measures() == Cleared() && Gizmo() == GizmoOff
      ensures measureMode == old(measureMode) && Pointer() == old(Pointer())
    {
      attached := false;
      gizmoEnabled := false;
      helperVisible := false;
      ClearMeasurements();
      model := null;
    }

    /** The state changes of loadFromFile once a parser has produced root
        with meshCount meshes: the old model is cleared first; without
        meshes the load fails and no model remains; otherwise root is
        centred and grounded, wrapped in a pivot that becomes the model,
        measuring is turned off and the gizmo hidden. */
    method LoadParsed(root: SceneNode, meshCount: nat) returns (loaded: bool)
      requires Valid() && root != model
      requires meshCount > 0 ==> |root.local| > 0
      modifies this, root
      ensures Valid()
      ensures loaded <==> meshCount > 0
      ensures Measures() == Cleared() && Gizmo() == GizmoOff
      ensures !loaded ==> model == null && measureMode == old(measureMode)
      ensures loaded ==>
                model != null && fresh(model) && !measureMode &&
                model.World() == Translate(old(root.local), CenteredPosition(old(root.local), old(root.position)))
      ensures Pointer() == old(Pointer())
    {
      ClearModel();
      if meshCount == 0 {
        return false;
      }
      InstallModel(root);
      
      SetMeasureMode(false);
      SetRotateGizmoVisible(false);
      loaded := true;
    }

    /** centerAndGroundModel(root), then wrapModelInCenteredPivot(root)
        becomes the model. */
    method InstallModel(root: SceneNode)
      requires Valid() && model == null && |root.local| > 0
      modifies this`model, root
      ensures Valid()
      ensures model != null && fresh(model)
      ensures model.World() == Translate(old(root.local), CenteredPosition(old(root.local), old(root.position)))
    {
      var pivot := PlaceInPivot(root);
      model := pivot;
    }

    /** The 'dragging-changed' listener: orbiting is off while the gizmo
        drags; when a drag ends with a model loaded, the model is rested on
        the ground again and the measurements are cleared. */
    method DraggingChanged(value: bool)
      requires Valid()
      modifies this, model
      ensures Valid()
      ensures dragging == value && orbitEnabled == !value
      ensures model == old(model) && Gizmo() == old(Gizmo()) && measureMode == old(measureMode)
      ensures model != null ==> model.local == old(model.local)
      ensures !value && model != null ==>
                model.position == GroundedPosition(model.local, old(model.position)) &&
                Measures() == Cleared()
      ensures value || model == null ==>
                Measures() == old(Measures()) && (model != null ==> model.position == old(model.position))
      ensures pointerDown == old(pointerDown) && gizmoPointerInteraction == old(gizmoPointerInteraction)
      ensures listView == ListOf(Measures())
    {
      orbitEnabled := !value;
      dragging := value;
      if !value && model != null {
        model.RestOnGround();
        ClearMeasurements();
      }
    }

    /** TransformControls' 'mouseDown': the press went to the gizmo. */
    method GizmoMouseDown()
      modifies this
      ensures gizmoPointerInteraction
      ensures Measures() == old(Measures()) && Gizmo() == old(Gizmo()) && model == old(model)
      ensures measureMode == old(measureMode) && listView == old(listView)
      ensures Pointer() == old(Pointer()).(gizmoPointerInteraction := true)
    {
      gizmoPointerInteraction := true;
    }

    /** The canvas 'pointerdown' listener. */
    method PointerDown(at: ScreenPoint)
      modifies this
      ensures pointerDown == Some(at) && !gizmoPointerInteraction
      ensures Measures() == old(Measures()) && Gizmo() == old(Gizmo()) && model == old(model)
      ensures measureMode == old(measureMode) && listView == old(listView)
      ensures orbitEnabled == old(orbitEnabled) && dragging == old(dragging)
    {
      gizmoPointerInteraction := false;
      pointerDown := Some(at);
    }

    /** The canvas 'pointerup' listener. hit is the first ray hit on the
        model, if any, snap the state of the snapping toggle, and meshHit
        whether the ray met a mesh of the model. */
    method PointerUp(at: ScreenPoint, hit: Option<Hit>, snap: bool, meshHit: bool)
      requires Valid()
      modifies this
      ensures Valid()
      ensures model == old(model) && measureMode == old(measureMode)
      ensures dragging == old(dragging) && orbitEnabled == old(orbitEnabled)
      ensures old(pointerDown).None? || model == null ==>
                Measures() == old(Measures()) && Gizmo() == old(Gizmo()) &&
                pointerDown == old(pointerDown) && gizmoPointerInteraction == old(gizmoPointerInteraction)
      ensures old(pointerDown).Some? && model != null ==> pointerDown.None?
      ensures old(pointerDown).Some? && model != null &&
              (MovedTooFar(old(pointerDown).value, at) || dragging) ==>
                Measures() == old(Measures()) && Gizmo() == old(Gizmo()) && !gizmoPointerInteraction
      ensures old(pointerDown).Some? && model != null &&
              !MovedTooFar(old(pointerDown).value, at) && !dragging && measureMode ==>
                Gizmo() == old(Gizmo()) && gizmoPointerInteraction == old(gizmoPointerInteraction) &&
                Measures() == (if hit.Some? then AddPoint(old(Measures()), TargetPoint(hit.value, snap))
                               else old(Measures()))
      ensures old(pointerDown).Some? && model != null &&
              !MovedTooFar(old(pointerDown).value, at) && !dragging && !measureMode ==>
                Measures() == old(Measures()) && !gizmoPointerInteraction &&
                Gizmo() == (if old(gizmoPointerInteraction) then old(Gizmo())
                            else GizmoState(meshHit, meshHit, meshHit))
    {
      if pointerDown.None? || model == null {
        return;
      }
      var down := pointerDown.value;
      pointerDown := None;
      if MovedTooFar(down, at) {
        gizmoPointerInteraction := false;
        return;
      }
      if dragging {
        gizmoPointerInteraction := false;
        return;
      }
      if measureMode {
        if hit.Some? {
          var p: Vec3;
          if snap {
            p := SnapHitToWireframe(hit.value);
          } else {
            p := hit.value.point;
          }
          AddMeasurementPoint(p);
        }
        return;
      }
      if gizmoPointerInteraction {
        gizmoPointerInteraction := false;
        return;
      }
      SetRotateGizmoVisible(meshHit);
      gizmoPointerInteraction := false;
    }

    /** The document 'pointerdown' listener: a press outside the 3D view
        hides the gizmo while a model is loaded. */
    method DocumentPointerDown(insideView: bool)
      requires Valid()
      modifies this
      ensures Valid()
      ensures Measures() == old(Measures()) && model == old(model) && measureMode == old(measureMode)
      ensures model != null && !insideView ==> Gizmo() == GizmoOff && !gizmoPointerInteraction
      ensures model == null || insideView ==>
                Gizmo() == old(Gizmo()) && gizmoPointerInteraction == old(gizmoPointerInteraction)
      ensures pointerDown == old(pointerDown) && dragging == old(dragging) && orbitEnabled == old(orbitEnabled)
    {
      if model == null {
        return;
      }
      if !insideView {
        SetRotateGizmoVisible(false);
        gizmoPointerInteraction := false;
      }
    }
  }
}
